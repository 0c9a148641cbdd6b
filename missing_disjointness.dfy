/** Stage 8 and the whole missing-disjointness heuristic: every candidate
    pair is tried by adding its disjointness axiom to the ontology, asking the
    reasoner how many classes are unsatisfiable, and taking the axiom out
    again; a pair is reported only if the count does not grow. */
module MissingDisjointness {
  import opened Seqs
  import opened Owl
  import opened DisjointnessCandidates

  /** The axiom `DisjointClasses(first, second)` for a pair in class order,
      the order in which the OWL API keeps the members. */
  function DisjointnessAxiom(p: Pair): Axiom
  {
    DisjointClasses([Atomic(p.0), Atomic(p.1)])
  }

  /** The number of classes the reasoner reports unsatisfiable. */
  function UnsatCount(axioms: seq<Axiom>, r: Reasoner): nat
  {
    |UnsatisfiableSet(axioms, r)|
  }

  /** A pair passes the safety filter when its axiom is new to the ontology
      and adding it does not raise the number of unsatisfiable classes. */
  predicate IsSafe(axioms: seq<Axiom>, r: Reasoner, p: Pair)
  {
    DisjointnessAxiom(p) !in axioms
    && UnsatCount(axioms + [DisjointnessAxiom(p)], r) <= UnsatCount(axioms, r)
  }

  /** A subset at least as large as its superset is the whole set; used by
      `IsSafeIff` to read the source's count comparison as set equality. */
  lemma SubsetNotSmaller(a: set<ClassId>, b: set<ClassId>)
    requires a <= b && |b| <= |a|
    ensures a == b
  {
    if x :| x in b && x !in a {
      ProperSubsetSmaller(a, b, x);
    }
  }

  /** When adding an axiom never makes an unsatisfiable class satisfiable
      again, comparing counts is comparing sets: a new pair is safe exactly
      when it leaves the unsatisfiable classes as they were. */
  lemma IsSafeIff(axioms: seq<Axiom>, r: Reasoner, p: Pair)
    requires UnsatisfiableSet(axioms, r) <= UnsatisfiableSet(axioms + [DisjointnessAxiom(p)], r)
    ensures IsSafe(axioms, r, p) <==>
      DisjointnessAxiom(p) !in axioms
      && UnsatisfiableSet(axioms + [DisjointnessAxiom(p)], r) == UnsatisfiableSet(axioms, r)
  {
    var before := UnsatisfiableSet(axioms, r);
    var after := UnsatisfiableSet(axioms + [DisjointnessAxiom(p)], r);
    if |after| <= |before| {
      SubsetNotSmaller(before, after);
    }
  }

  /** The safety check for one pair; the ontology is the same afterwards. */
  method KeepIfSafe(o: Ontology, r: Reasoner, p: Pair, baseline: nat) returns (keep: bool)
    requires o.Valid()
    modifies o
    ensures o.Valid() && o.axioms == old(o.axioms)
    ensures keep <==> DisjointnessAxiom(p) !in old(o.axioms)
                      && UnsatCount(old(o.axioms) + [DisjointnessAxiom(p)], r) <= baseline
  {
    var ax := DisjointnessAxiom(p);
    var applied := o.AddAxiom(ax);
    if !applied {
      return false;
    }
    keep := UnsatCount(o.axioms, r) <= baseline;
    o.RemoveAxiom(ax);
    WithoutAppended(old(o.axioms), ax);
  }

  /** Stage 8: the safe pairs, each once, in the order they are tried. */
  method SafetyFilter(o: Ontology, r: Reasoner, pairs: set<Pair>) returns (kept: seq<Pair>)
    requires o.Valid()
    modifies o
    ensures o.Valid() && o.axioms == old(o.axioms)
    ensures NoDuplicates(kept)
    ensures forall p :: p in kept <==> p in pairs && IsSafe(old(o.axioms), r, p)
  {
    var baseline := UnsatCount(o.axioms, r);
    var remaining := pairs;
    kept := [];
    while remaining != {}
      invariant o.Valid() && o.axioms == old(o.axioms)
      invariant remaining <= pairs
      invariant NoDuplicates(kept)
      invariant forall p :: p in kept <==> p in pairs && p !in remaining && IsSafe(old(o.axioms), r, p)
      decreases |remaining|
    {
      var p :| p in remaining;
      var keep := KeepIfSafe(o, r, p, baseline);
      if keep {
        kept := kept + [p];
      }
      remaining := remaining - {p};
    }
  }

  /** The candidate a pair is reported as: its two classes. */
  function AsCandidate(p: Pair): seq<ClassId>
  {
    [p.0, p.1]
  }

  /** `findCandidates`: the safe candidate pairs of stages 1-7, each reported
      once as its two classes in class order; the ontology is left as it was.
      `AsWritten` runs the heuristic as the source has it, `Corrected` with
      the stage 5 fallback as evidently intended. */
  method FindCandidates(o: Ontology, r: Reasoner, fallback: Fallback) returns (candidates: seq<seq<ClassId>>)
    requires o.Valid() && SuperClassesKnown(o.axioms, r)
    modifies o
    ensures o.Valid() && o.axioms == old(o.axioms)
    ensures NoDuplicates(candidates)
    ensures forall cand :: cand in candidates ==> |cand| == 2
    ensures forall a, b :: [a, b] in candidates <==>
      (a, b) in CandidatePairs(old(o.axioms), r, fallback) && IsSafe(old(o.axioms), r, (a, b))
  {
    var pairs := CandidatePairs(o.axioms, r, fallback);
    var kept := SafetyFilter(o, r, pairs);
    candidates := MapSeq(kept, AsCandidate);
    forall i, j | 0 <= i < j < |candidates| ensures candidates[i] != candidates[j] {
      assert candidates[i] == [kept[i].0, kept[i].1];
      assert candidates[j] == [kept[j].0, kept[j].1];
    }
    forall a, b ensures [a, b] in candidates <==> (a, b) in kept {
      if [a, b] in candidates {
        var p :| p in kept && AsCandidate(p) == [a, b];
        assert p == (a, b);
      }
      if (a, b) in kept {
        assert AsCandidate((a, b)) == [a, b];
      }
    }
  }
}
