# Ontology defect heuristics — a verified model

The repository detects likely modelling defects in an OWL 2 ontology with
four heuristics. Each heuristic asks a description-logic reasoner about the
ontology and returns defect candidates. A candidate is the list of classes
it names.

- **Missing closure.** A class has an existential restriction
  (`ObjectSomeValuesFrom`) on a property in one of its SubClassOf axioms. It
  has no universal restriction (`ObjectAllValuesFrom`) on that property, or
  on a super-property of it, on itself or any inferred superclass. The
  property is also not functional with every filler within its range.
- **Missing disjointness.** The heuristic looks for pairs of satisfiable,
  not fully defined classes that are neither sub- nor superclasses of each
  other and are not known to be disjoint. It generalises them to their most
  general common superclasses and keeps only the most general pairs. Then
  it keeps only the pairs whose `DisjointClasses` axiom, added to the
  ontology for a moment, does not make more classes unsatisfiable.
- **Trivially satisfiable universal restriction.** A universal restriction,
  stated on a class or inherited from a superclass, is vacuous on a
  satisfiable class when no existential restriction on that class or its
  superclasses could provide a fitting successor.
- **Unsatisfiable intersections.** An unsatisfiable class is reported when
  the axioms explaining its unsatisfiability hold an unsatisfiable
  `ObjectIntersectionOf`.
- **`isEquivalentClass`.** Shared by the heuristics: a class is fully
  defined when an EquivalentClasses axiom describes it.

The model is split into these files:

- `owl.dfy`: class expressions and axioms, following sections 8 and 9 of
  the OWL 2 Structural Specification.
  - The reasoner is a datatype of answers (`Owl.Reasoner`).
  - The ontology is a class whose axiom sequence is changed in place
    (`Owl.Ontology`).
  - Classes and properties are numbers ordered like their IRIs. owl:Thing
    is 0 and owl:Nothing is 1.
- `seqs.dfy`: the Kotlin collection operations the source relies on
  (`filter`, `flatMap`, `distinct`, `map`, removal of one element).
- `wrappers.dfy`: `Option`.
- `common_functions.dfy`: `isEquivalentClass`.
- `missing_closure.dfy`, `trivially_satisfiable.dfy` and
  `unsatisfiable_intersections.dfy`: one heuristic each.
- `disjointness_candidates.dfy`: stages 1–7 of missing disjointness, as
  functions over sets.
- `missing_disjointness.dfy`: the safety filter, written as methods that
  add an axiom to the `Ontology` object, ask the reasoner, and remove the
  axiom again. It also holds the method for the whole heuristic.

How the model maps the source:

- **Unchecked exceptions become `None`.** Where the source throws on some
  inputs, the pipeline returns `None`: a cast of an anonymous subclass to a
  named class, or `first()` on an empty member list. Missing closure and
  trivially satisfiable universal restriction each have a lemma saying
  exactly when that happens. Two other failures are not represented this
  way: the `!!` lookups of missing disjointness become a precondition, and
  the failing IRI lookup in a debug message of unsatisfiable intersections
  is left out (see "Left out").
- **Chained filters are one predicate.** Consecutive `filter` calls on one
  list are modelled as a single filter with the conjunction of their
  conditions. The result is the same.
- **Missing disjointness works on sets.** The source keeps its intermediate
  results in sets and maps whose order comes from the reasoner's streams.
  The model keeps them as Dafny sets. The safety filter tries the pairs in
  an order it leaves unspecified.
- **Partner combinations.** The source combines two partners only for
  indices `outer > inner`. The model takes every ordered pair of distinct
  partners. This gives the same union because each contribution is
  symmetric (`DisjointnessCandidates.PairContributionSymmetric`).

Two facts about the code of missing disjointness shape the model:

- Stage 3 builds ordered pairs and checks disjointness only for the second
  class against the first (MissingDisjointnessHeuristic.kt:69-81).
- The output is not sorted: it comes in the order the safety filter visits
  the pairs (MissingDisjointnessHeuristic.kt:170-199).

## Model

| member | source | states |
|---|---|---|
| CommonFunctions.IsEquivalentClassIff | src/main/kotlin/at/ac/tuwien/ifs/semsys/ontologydefectheuristics/service/impl/CommonFunctions.kt:9-10 | a class is fully defined exactly when it is a member of some EquivalentClasses axiom of the ontology |
| CommonFunctions.NoAxiomsNotEquivalent | src/main/kotlin/at/ac/tuwien/ifs/semsys/ontologydefectheuristics/service/impl/CommonFunctions.kt:9-10 | a class no axiom describes is never fully defined |
| CommonFunctions.OtherKindsIgnored | src/main/kotlin/at/ac/tuwien/ifs/semsys/ontologydefectheuristics/service/impl/CommonFunctions.kt:10 | adding an axiom that is not an EquivalentClasses axiom never changes the answer |
| CommonFunctions.EquivalentClassMonotone | src/main/kotlin/at/ac/tuwien/ifs/semsys/ontologydefectheuristics/service/impl/CommonFunctions.kt:10 | adding axioms never turns a fully defined class into one that is not |
| Owl.NestedInAxiom | src/main/kotlin/at/ac/tuwien/ifs/semsys/ontologydefectheuristics/service/impl/MissingClosureHeuristic.kt:45 | `nestedClassExpressions()` of an axiom holds every expression nested in one of its components, each once |
| Owl.OfKind | src/main/kotlin/at/ac/tuwien/ifs/semsys/ontologydefectheuristics/service/impl/MissingClosureHeuristic.kt:46 | filtering by `classExpressionType` keeps exactly the expressions of the requested kind |
| Owl.AxiomsOf | src/main/kotlin/at/ac/tuwien/ifs/semsys/ontologydefectheuristics/service/impl/CommonFunctions.kt:10 | `ontology.axioms(class)` holds exactly the axioms of the ontology that describe the class |
| Owl.RestrictionsOnClassOrSupers | src/main/kotlin/at/ac/tuwien/ifs/semsys/ontologydefectheuristics/service/impl/MissingClosureHeuristic.kt:64-75 | a restriction is gathered exactly when it has the requested kind and is nested in an axiom describing the class or one of its inferred superclasses |
| Owl.AsCandidates | src/main/kotlin/at/ac/tuwien/ifs/semsys/ontologydefectheuristics/service/impl/MissingClosureHeuristic.kt:101-103 | one single-class candidate per reported class, in order |
| Owl.NestedTransitive | src/main/kotlin/at/ac/tuwien/ifs/semsys/ontologydefectheuristics/service/impl/UnsatisfiableIntersectionsHeuristic.kt:97 | an expression nested in a nested expression is itself nested |
| Owl.Ontology.AddAxiom | src/main/kotlin/at/ac/tuwien/ifs/semsys/ontologydefectheuristics/service/impl/MissingDisjointnessHeuristic.kt:172-173 | the change is applied exactly when the axiom is new, and then the axiom is appended; the axioms stay free of duplicates |
| Owl.Ontology.RemoveAxiom | src/main/kotlin/at/ac/tuwien/ifs/semsys/ontologydefectheuristics/service/impl/MissingDisjointnessHeuristic.kt:181-187 | the axiom is gone and every other axiom is kept |
| Seqs.Distinct | src/main/kotlin/at/ac/tuwien/ifs/semsys/ontologydefectheuristics/service/impl/MissingClosureHeuristic.kt:48 | `distinct()` keeps the same elements, without duplicates |
| Seqs.WithoutAppended | src/main/kotlin/at/ac/tuwien/ifs/semsys/ontologydefectheuristics/service/impl/MissingDisjointnessHeuristic.kt:172-187 | removing the axiom just added restores the previous axiom list |
| UnsatisfiableIntersections.ExtractClassExpressionsOfType | src/main/kotlin/at/ac/tuwien/ifs/semsys/ontologydefectheuristics/service/impl/UnsatisfiableIntersectionsHeuristic.kt:80-101 | the frontier walk returns the accumulator plus every expression of the requested kind nested in the input; an empty input returns the accumulator unchanged; the walk terminates |
| UnsatisfiableIntersections.NestedAllClosed | src/main/kotlin/at/ac/tuwien/ifs/semsys/ontologydefectheuristics/service/impl/UnsatisfiableIntersectionsHeuristic.kt:97 | expanding nested expressions a second time adds nothing |
| UnsatisfiableIntersections.NestedAllStep | src/main/kotlin/at/ac/tuwien/ifs/semsys/ontologydefectheuristics/service/impl/UnsatisfiableIntersectionsHeuristic.kt:97 | the next frontier stays within the expressions nested in the input |
| UnsatisfiableIntersections.WalkedDone | src/main/kotlin/at/ac/tuwien/ifs/semsys/ontologydefectheuristics/service/impl/UnsatisfiableIntersectionsHeuristic.kt:86 | once the frontier is empty, the result is the accumulator plus every nested expression of the kind |
| UnsatisfiableIntersections.FindCandidates | src/main/kotlin/at/ac/tuwien/ifs/semsys/ontologydefectheuristics/service/impl/UnsatisfiableIntersectionsHeuristic.kt:50-73 | one single-class candidate per flagged class, in the reasoner's order; owl:Nothing is never reported; every reported class is unsatisfiable |
| UnsatisfiableIntersections.HasUnsatisfiableIntersectionIff | src/main/kotlin/at/ac/tuwien/ifs/semsys/ontologydefectheuristics/service/impl/UnsatisfiableIntersectionsHeuristic.kt:60-69 | a class is flagged exactly when some axiom of its explanation nests an intersection the reasoner finds unsatisfiable |
| UnsatisfiableIntersections.FlaggedClassesSpec | src/main/kotlin/at/ac/tuwien/ifs/semsys/ontologydefectheuristics/service/impl/UnsatisfiableIntersectionsHeuristic.kt:39-73 | a class is reported exactly when it is unsatisfiable, is not owl:Nothing, and has an unsatisfiable intersection in its explanation; the reported classes keep the reasoner's order |
| MissingClosure.SomeValuesFromBySubclass | src/main/kotlin/at/ac/tuwien/ifs/semsys/ontologydefectheuristics/service/impl/MissingClosureHeuristic.kt:38-49 | every collected restriction is existential |
| MissingClosure.SomeValuesFromBySubclassFails | src/main/kotlin/at/ac/tuwien/ifs/semsys/ontologydefectheuristics/service/impl/MissingClosureHeuristic.kt:40-47 | the first stage fails exactly when some SubClassOf axiom has an anonymous subclass and nests an existential restriction (the failing cast) |
| MissingClosure.SomeValuesFromBySubclassMembers | src/main/kotlin/at/ac/tuwien/ifs/semsys/ontologydefectheuristics/service/impl/MissingClosureHeuristic.kt:38-49 | when it succeeds, a (class, restriction) pair is collected exactly when the restriction is existential and nested in a SubClassOf axiom whose subclass is that class |
| MissingClosure.SomeValuesFromBySubclassSpec | src/main/kotlin/at/ac/tuwien/ifs/semsys/ontologydefectheuristics/service/impl/MissingClosureHeuristic.kt:38-49 | both of the above together |
| MissingClosure.GroupRestrictions | src/main/kotlin/at/ac/tuwien/ifs/semsys/ontologydefectheuristics/service/impl/MissingClosureHeuristic.kt:50-56 | a group holds exactly the existential restrictions on its property paired with its class |
| MissingClosure.GroupByClassAndProperty | src/main/kotlin/at/ac/tuwien/ifs/semsys/ontologydefectheuristics/service/impl/MissingClosureHeuristic.kt:50-57 | keys are pairwise distinct; no group is empty; a group holds exactly the matching restrictions; every pair falls into a group; the groups come in the order their keys first occur |
| MissingClosure.GroupsSpec | src/main/kotlin/at/ac/tuwien/ifs/semsys/ontologydefectheuristics/service/impl/MissingClosureHeuristic.kt:50-57 | the same four facts about one group per distinct key |
| MissingClosure.GroupsOrdered | src/main/kotlin/at/ac/tuwien/ifs/semsys/ontologydefectheuristics/service/impl/MissingClosureHeuristic.kt:50-57 | the groups come in the order their keys first occur: a pair falling into a later group is preceded by a pair of every earlier group |
| MissingClosure.KeyOrder | src/main/kotlin/at/ac/tuwien/ifs/semsys/ontologydefectheuristics/service/impl/MissingClosureHeuristic.kt:50 | the distinct keys come in the order they first occur among the pairs |
| Seqs.DistinctFirstOccurrence | src/main/kotlin/at/ac/tuwien/ifs/semsys/ontologydefectheuristics/service/impl/MissingClosureHeuristic.kt:50 | the keys of `groupBy` are kept in first-occurrence order: where a later kept key occurs, every earlier kept key has already occurred |
| MissingClosure.FindCandidates | src/main/kotlin/at/ac/tuwien/ifs/semsys/ontologydefectheuristics/service/impl/MissingClosureHeuristic.kt:101-103 | the heuristic fails exactly when the first stage fails; otherwise the candidates are the reported classes, index by index, each as a single-class candidate |
| MissingClosure.GroupExemptIff | src/main/kotlin/at/ac/tuwien/ifs/semsys/ontologydefectheuristics/service/impl/MissingClosureHeuristic.kt:91-100 | the functional-range exemption of a group is the exemption of its class and property over all its existential fillers |
| MissingClosure.ReportedGroupMissesClosure | src/main/kotlin/at/ac/tuwien/ifs/semsys/ontologydefectheuristics/service/impl/MissingClosureHeuristic.kt:58-100 | a group that passes every filter is a class that misses a closure on the group's property |
| MissingClosure.MissingClosureHasReportedGroup | src/main/kotlin/at/ac/tuwien/ifs/semsys/ontologydefectheuristics/service/impl/MissingClosureHeuristic.kt:50-100 | a class that misses a closure on a property has a group that passes every filter |
| MissingClosure.ReportedIff | src/main/kotlin/at/ac/tuwien/ifs/semsys/ontologydefectheuristics/service/impl/MissingClosureHeuristic.kt:38-103 | a class is reported exactly when it misses a closure on some property |
| MissingClosure.MissingClosureClassesSpec | src/main/kotlin/at/ac/tuwien/ifs/semsys/ontologydefectheuristics/service/impl/MissingClosureHeuristic.kt:38-103 | the heuristic fails exactly when a cast fails; otherwise it reports a class exactly when the class is not fully defined, is satisfiable, has an existential restriction on a property with no closing universal restriction, and is not exempt |
| MissingClosure.ReportedAreConsidered | src/main/kotlin/at/ac/tuwien/ifs/semsys/ontologydefectheuristics/service/impl/MissingClosureHeuristic.kt:58-61 | reported classes are satisfiable and not fully defined |
| MissingClosure.ClosureAxiomCloses | src/main/kotlin/at/ac/tuwien/ifs/semsys/ontologydefectheuristics/service/impl/MissingClosureHeuristic.kt:62-89 | adding the closure axiom `c SubClassOf (p only F)` closes `p` on `c`, so that group is no longer reported |
| TriviallySatisfiable.AllValuesFromBySubject | src/main/kotlin/at/ac/tuwien/ifs/semsys/ontologydefectheuristics/service/impl/TriviallySatisfiableAllValuesFromHeuristic.kt:35-46 | every collected restriction is universal |
| TriviallySatisfiable.AllValuesFromBySubjectFails | src/main/kotlin/at/ac/tuwien/ifs/semsys/ontologydefectheuristics/service/impl/TriviallySatisfiableAllValuesFromHeuristic.kt:36-46 | the first stage fails exactly when an EquivalentClasses axiom has no member, or a defining axiom's subject is anonymous while it nests a universal restriction |
| TriviallySatisfiable.AllValuesFromBySubjectMembers | src/main/kotlin/at/ac/tuwien/ifs/semsys/ontologydefectheuristics/service/impl/TriviallySatisfiableAllValuesFromHeuristic.kt:35-46 | when it succeeds, a pair is collected exactly when the restriction is universal and nested in a defining axiom whose subject is the class |
| TriviallySatisfiable.WithSubclasses | src/main/kotlin/at/ac/tuwien/ifs/semsys/ontologydefectheuristics/service/impl/TriviallySatisfiableAllValuesFromHeuristic.kt:47-55 | a class gets a restriction exactly when it is the restriction's subject or an inferred subclass of it |
| TriviallySatisfiable.FindCandidates | src/main/kotlin/at/ac/tuwien/ifs/semsys/ontologydefectheuristics/service/impl/TriviallySatisfiableAllValuesFromHeuristic.kt:121-123 | fails exactly when the pipeline fails; otherwise one candidate per reported pair, naming its class, in order |
| TriviallySatisfiable.TriviallySatisfiablePairsSpec | src/main/kotlin/at/ac/tuwien/ifs/semsys/ontologydefectheuristics/service/impl/TriviallySatisfiableAllValuesFromHeuristic.kt:35-114 | fails exactly when reading an axiom throws; otherwise each pair is reported once, and a (class, restriction) pair is reported exactly when the restriction applies to the satisfiable class and no existential restriction on the class or its superclasses fits it |
| TriviallySatisfiable.WitnessRestrictionFits | src/main/kotlin/at/ac/tuwien/ifs/semsys/ontologydefectheuristics/service/impl/TriviallySatisfiableAllValuesFromHeuristic.kt:90-105 | adding an existential restriction on the same property, with a filler class from the universal filler's signature, makes the restriction non-vacuous |
| DisjointnessCandidates.BuildHierarchyValid | src/main/kotlin/at/ac/tuwien/ifs/semsys/ontologydefectheuristics/service/impl/MissingDisjointnessHeuristic.kt:37-65 | when every kept superclass is a working class, every map lookup of the heuristic succeeds and each class is among its own superclasses |
| DisjointnessCandidates.BuildHierarchyTransitive | src/main/kotlin/at/ac/tuwien/ifs/semsys/ontologydefectheuristics/service/impl/MissingDisjointnessHeuristic.kt:49-59 | when the reasoner's superclasses are transitive, so are the superclass sets |
| DisjointnessCandidates.NonDisjointPairs | src/main/kotlin/at/ac/tuwien/ifs/semsys/ontologydefectheuristics/service/impl/MissingDisjointnessHeuristic.kt:69-81 | both classes of every pair are working classes |
| DisjointnessCandidates.PartnersSpec | src/main/kotlin/at/ac/tuwien/ifs/semsys/ontologydefectheuristics/service/impl/MissingDisjointnessHeuristic.kt:91-102 | every key has a partner; a partner is a different working class, and neither is a superclass of the other |
| DisjointnessCandidates.FilterTopSuperClasses | src/main/kotlin/at/ac/tuwien/ifs/semsys/ontologydefectheuristics/service/impl/MissingDisjointnessHeuristic.kt:205-216 | the result is a subset of the input |
| DisjointnessCandidates.FilterTopIdempotent | src/main/kotlin/at/ac/tuwien/ifs/semsys/ontologydefectheuristics/service/impl/MissingDisjointnessHeuristic.kt:205-216 | filtering twice gives what filtering once gives |
| DisjointnessCandidates.FilterTopCovers | src/main/kotlin/at/ac/tuwien/ifs/semsys/ontologydefectheuristics/service/impl/MissingDisjointnessHeuristic.kt:205-216 | in a transitive, antisymmetric hierarchy every input class has a superclass (or itself) among the kept classes |
| DisjointnessCandidates.PairContribution | src/main/kotlin/at/ac/tuwien/ifs/semsys/ontologydefectheuristics/service/impl/MissingDisjointnessHeuristic.kt:120-134 | the contribution of two partners consists of working classes |
| DisjointnessCandidates.PairContributionSymmetric | src/main/kotlin/at/ac/tuwien/ifs/semsys/ontologydefectheuristics/service/impl/MissingDisjointnessHeuristic.kt:114-119 | the contribution does not depend on the order of the two partners, so taking each combination once equals taking both orders |
| DisjointnessCandidates.TopCandidates | src/main/kotlin/at/ac/tuwien/ifs/semsys/ontologydefectheuristics/service/impl/MissingDisjointnessHeuristic.kt:108-143 | the top candidates of a class are working classes |
| DisjointnessCandidates.ContributionUnrelated | src/main/kotlin/at/ac/tuwien/ifs/semsys/ontologydefectheuristics/service/impl/MissingDisjointnessHeuristic.kt:120-134 | with the corrected fallback, nothing two partners contribute is a superclass or subclass of the class |
| DisjointnessCandidates.TopCandidatesUnrelated | src/main/kotlin/at/ac/tuwien/ifs/semsys/ontologydefectheuristics/service/impl/MissingDisjointnessHeuristic.kt:108-143 | with the corrected fallback, no top candidate is the class itself, one of its superclasses or one of its subclasses |
| DisjointnessCandidates.AsWrittenFallbackProposesSuperclass | src/main/kotlin/at/ac/tuwien/ifs/semsys/ontologydefectheuristics/service/impl/MissingDisjointnessHeuristic.kt:128-133 | as written, the fallback makes a superclass of the class one of its top candidates (concrete hierarchy) |
| DisjointnessCandidates.Normalized | src/main/kotlin/at/ac/tuwien/ifs/semsys/ontologydefectheuristics/service/impl/MissingDisjointnessHeuristic.kt:147-150 | the pair holds the same two classes, in class order |
| DisjointnessCandidates.ReducedPairs | src/main/kotlin/at/ac/tuwien/ifs/semsys/ontologydefectheuristics/service/impl/MissingDisjointnessHeuristic.kt:145-153 | every reduced pair joins two working classes |
| DisjointnessCandidates.ReducedPairsUnrelated | src/main/kotlin/at/ac/tuwien/ifs/semsys/ontologydefectheuristics/service/impl/MissingDisjointnessHeuristic.kt:145-153 | with the corrected fallback, every reduced pair joins two distinct classes in class order, neither a superclass of the other |
| DisjointnessCandidates.SharedRootAsWrittenTop | src/main/kotlin/at/ac/tuwien/ifs/semsys/ontologydefectheuristics/service/impl/MissingDisjointnessHeuristic.kt:108-143 | as written, each of the three siblings of the concrete hierarchy has their common superclass 5 as its only top candidate |
| DisjointnessCandidates.SharedRootCorrectedTop | src/main/kotlin/at/ac/tuwien/ifs/semsys/ontologydefectheuristics/service/impl/MissingDisjointnessHeuristic.kt:108-143 | with the corrected fallback, each sibling has the other two as its top candidates |
| DisjointnessCandidates.SharedRootReducedAsWritten | src/main/kotlin/at/ac/tuwien/ifs/semsys/ontologydefectheuristics/service/impl/MissingDisjointnessHeuristic.kt:145-153 | as written, stage 6 pairs each sibling with its superclass 5 and with nothing else |
| DisjointnessCandidates.SharedRootReducedCorrected | src/main/kotlin/at/ac/tuwien/ifs/semsys/ontologydefectheuristics/service/impl/MissingDisjointnessHeuristic.kt:145-153 | with the corrected fallback, stage 6 pairs the three siblings with each other |
| DisjointnessCandidates.ReducedToRoot | src/main/kotlin/at/ac/tuwien/ifs/semsys/ontologydefectheuristics/service/impl/MissingDisjointnessHeuristic.kt:145-153 | stage 6 for any hierarchy whose classes 2, 3 and 4 each have only 5 as top candidate |
| DisjointnessCandidates.ReducedToSiblings | src/main/kotlin/at/ac/tuwien/ifs/semsys/ontologydefectheuristics/service/impl/MissingDisjointnessHeuristic.kt:145-153 | stage 6 for any hierarchy whose classes 2, 3 and 4 each have the other two as top candidates |
| DisjointnessCandidates.ContributionsOfTwo | src/main/kotlin/at/ac/tuwien/ifs/semsys/ontologydefectheuristics/service/impl/MissingDisjointnessHeuristic.kt:108-119 | two partners contribute what their one combination contributes |
| DisjointnessCandidates.TopCandidatesOfPartners | src/main/kotlin/at/ac/tuwien/ifs/semsys/ontologydefectheuristics/service/impl/MissingDisjointnessHeuristic.kt:106-143 | a class with two or more partners takes the most general of all its partners' contributions |
| DisjointnessCandidates.SubsumesIff | src/main/kotlin/at/ac/tuwien/ifs/semsys/ontologydefectheuristics/service/impl/MissingDisjointnessHeuristic.kt:157-168 | for two different pairs in class order the `when` cascade is the plain disjunction: the order of its branches does not matter |
| DisjointnessCandidates.MinimalPairs | src/main/kotlin/at/ac/tuwien/ifs/semsys/ontologydefectheuristics/service/impl/MissingDisjointnessHeuristic.kt:155-169 | the kept pairs are among the reduced pairs |
| DisjointnessCandidates.MinimalPairsIdempotent | src/main/kotlin/at/ac/tuwien/ifs/semsys/ontologydefectheuristics/service/impl/MissingDisjointnessHeuristic.kt:155-169 | applying the minimality filter to its own output changes nothing |
| DisjointnessCandidates.AsWrittenReplacesGenuinePairs | src/main/kotlin/at/ac/tuwien/ifs/semsys/ontologydefectheuristics/service/impl/MissingDisjointnessHeuristic.kt:108-169 | on the concrete hierarchy, stages 1–7 as written leave only the three bogus pairs (2, 5), (3, 5), (4, 5), each a class with its own superclass; corrected they leave the three genuine sibling pairs |
| DisjointnessCandidates.MinimalPairsAntichain | src/main/kotlin/at/ac/tuwien/ifs/semsys/ontologydefectheuristics/service/impl/MissingDisjointnessHeuristic.kt:155-169 | no two kept pairs share a class while the other class of one is a superclass of the other class of the other |
| DisjointnessCandidates.CandidatePairsUnrelated | src/main/kotlin/at/ac/tuwien/ifs/semsys/ontologydefectheuristics/service/impl/MissingDisjointnessHeuristic.kt:35-169 | with the corrected fallback, every candidate pair joins two satisfiable working classes in class order, neither a superclass of the other |
| MissingDisjointness.IsSafeIff | src/main/kotlin/at/ac/tuwien/ifs/semsys/ontologydefectheuristics/service/impl/MissingDisjointnessHeuristic.kt:171-190 | when adding an axiom never makes an unsatisfiable class satisfiable, comparing counts means a new pair is safe exactly when it leaves the unsatisfiable classes unchanged |
| MissingDisjointness.KeepIfSafe | src/main/kotlin/at/ac/tuwien/ifs/semsys/ontologydefectheuristics/service/impl/MissingDisjointnessHeuristic.kt:171-190 | a pair is kept exactly when its axiom is new and adding it does not raise the unsatisfiable count above the baseline; the ontology is left as it was on every path |
| MissingDisjointness.SafetyFilter | src/main/kotlin/at/ac/tuwien/ifs/semsys/ontologydefectheuristics/service/impl/MissingDisjointnessHeuristic.kt:171-190 | the kept pairs are exactly the safe input pairs, each once, against the count taken before any change; the ontology is unchanged afterwards |
| MissingDisjointness.FindCandidates | src/main/kotlin/at/ac/tuwien/ifs/semsys/ontologydefectheuristics/service/impl/MissingDisjointnessHeuristic.kt:31-199 | for the given fallback (`AsWritten` is the source), `[a, b]` is reported exactly when `(a, b)` is a candidate pair of stages 1–7 and is safe; every candidate names two classes; none is reported twice; the ontology is unchanged afterwards |

## Findings

| source | as written | input that shows it | evidently intended | confidence | as-written member | corrected member |
|---|---|---|---|---|---|---|
| src/main/kotlin/at/ac/tuwien/ifs/semsys/ontologydefectheuristics/service/impl/MissingDisjointnessHeuristic.kt:130-133 | The result of `candidates.minus(superClasses[owlClass]!!)` is discarded. The fallback therefore returns the union of both partners' superclass sets, including the class's own superclasses. | Classes 2, 3 and 4 share the superclass 5, and no disjointness is known. The partners of 2 are 3 and 4. Their only common superclass, 5, is a superclass of 2, so the fallback applies and yields {3, 4, 5}. The top candidate of 2 is then 5: class 2 is proposed disjoint with its own superclass. | Subtract the class's own superclasses, so that no class is paired with one of its superclasses. | high; not executed | DisjointnessCandidates.AsWrittenFallbackProposesSuperclass | DisjointnessCandidates.ReducedPairsUnrelated |

`DisjointnessCandidates.PairContribution` takes a `Fallback` argument:

- `AsWritten` follows the code as it is.
- `Corrected` subtracts the class's own superclasses.

`MissingDisjointness.FindCandidates` takes the fallback as a parameter:
`AsWritten` is the heuristic as the source runs it, `Corrected` the intended
one. The bogus pairs do not just come in addition to the genuine ones: at
stage 5 the class's superclass replaces its genuine top candidates. In the
concrete hierarchy the three sibling pairs never reach stage 7 as written,
and only the three bogus pairs go to the safety filter
(`DisjointnessCandidates.AsWrittenReplacesGenuinePairs`). Whether the safety
filter then rejects the bogus pairs depends on the reasoner and is not
stated.

## Left out

- The reasoner and the explanation generator are not modelled.
  - `Owl.Reasoner` gives their answers as functions.
  - One fixed explanation stands for the one `HSTExplanationGenerator`
    returns.
  - The unsatisfiable classes are a function of the current axiom set.
    This models a reasoner that sees each change at once.
- These parts of the repository are not part of this model:
  - ontology parsing;
  - the REST resource;
  - the detection service;
  - the mapping of candidates to DTOs;
  - logging and timing.
- Axiom annotations and every axiom kind other than SubClassOf,
  EquivalentClasses, DisjointClasses and FunctionalObjectProperty are kept
  only as `OtherAxiom`: the classes they describe and the expressions they
  nest.
- Object property expressions are named properties. The cast to
  `OWLObjectProperty` at MissingClosureHeuristic.kt:54 cannot fail in the
  model, and inverse properties are not represented.
- `reasoner.superClasses(c)` with one argument is taken as all inferred
  superclasses, not only the direct ones. `getObjectPropertyRanges(p, true)`
  is the reasoner field `objectPropertyRanges`.
- MissingDisjointness.FindCandidates: requires `SuperClassesKnown`.
  - This means every superclass kept for a working class is itself a
    working class.
  - Where that fails, the source throws NullPointerException at a `!!`
    lookup. The model does not represent that failure.
- MissingDisjointness.FindCandidates: the order of the pairs follows the
  order the safety filter tries them in, which the model leaves
  unspecified.
  - The source's order comes from the iteration order of the reasoner's
    streams.
  - Only membership, absence of duplicates and the shape of each candidate
    are stated.
- DisjointnessCandidates.CandidatePairsUnrelated: holds only with the
  corrected fallback. As written it fails: the Findings hierarchy yields
  candidate pairs that join a class with its own superclass.
- UnsatisfiableIntersections.FindCandidates: the debug message at
  UnsatisfiableIntersectionsHeuristic.kt:53 calls `iri.remainder.get()`,
  which throws for an IRI without an NCName remainder. Classes are numbers
  without IRIs in the model, so this failure is not represented.
- MissingDisjointness.KeepIfSafe: `addAxiom` succeeds exactly when the
  axiom is new. No other reason for an unsuccessful change is modelled.
- MissingDisjointness.IsSafe compares counts of unsatisfiable classes, as
  the source does. Both counts are counts of distinct classes.
- UnsatisfiableIntersections.ExtractClassExpressionsOfType: the source's
  recursion is a loop over the same frontiers. The result set is a value;
  the mutable set is not shared.
