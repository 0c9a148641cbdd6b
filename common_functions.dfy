/** The predicate two heuristics use to set aside fully defined classes. */
module CommonFunctions {
  import opened Seqs
  import opened Owl

  /** A class is fully defined when one of the axioms describing it is an
      EquivalentClasses axiom. */
  predicate IsEquivalentClass(axioms: seq<Axiom>, c: ClassId)
  {
    exists ax :: ax in AxiomsOf(axioms, c) && ax.EquivalentClasses?
  }

  /** Fully defined exactly when the class is a member of some
      EquivalentClasses axiom of the ontology. */
  lemma IsEquivalentClassIff(axioms: seq<Axiom>, c: ClassId)
    ensures IsEquivalentClass(axioms, c) <==>
      exists i :: 0 <= i < |axioms| && axioms[i].EquivalentClasses? && Atomic(c) in axioms[i].members
  {
    if IsEquivalentClass(axioms, c) {
      var ax :| ax in AxiomsOf(axioms, c) && ax.EquivalentClasses?;
      var i :| 0 <= i < |axioms| && axioms[i] == ax;
    }
    if exists i :: 0 <= i < |axioms| && axioms[i].EquivalentClasses? && Atomic(c) in axioms[i].members {
      var i :| 0 <= i < |axioms| && axioms[i].EquivalentClasses? && Atomic(c) in axioms[i].members;
      assert axioms[i] in AxiomsOf(axioms, c);
    }
  }

  /** A class no axiom describes is never fully defined. */
  lemma NoAxiomsNotEquivalent(axioms: seq<Axiom>, c: ClassId)
    requires AxiomsOf(axioms, c) == []
    ensures !IsEquivalentClass(axioms, c)
  {
  }

  /** An axiom of any other kind never decides the predicate. */
  lemma {:induction false} OtherKindsIgnored(axioms: seq<Axiom>, ax: Axiom, c: ClassId)
    requires !ax.EquivalentClasses?
    ensures IsEquivalentClass(axioms + [ax], c) <==> IsEquivalentClass(axioms, c)
  {
    FilterConcat(axioms, [ax], a => Describes(a, c));
    assert AxiomsOf(axioms + [ax], c) == AxiomsOf(axioms, c) + AxiomsOf([ax], c);
  }

  /** Adding axioms never turns a fully defined class into one that is not. */
  lemma {:induction false} EquivalentClassMonotone(axioms: seq<Axiom>, more: seq<Axiom>, c: ClassId)
    requires IsEquivalentClass(axioms, c)
    ensures IsEquivalentClass(axioms + more, c)
  {
    var ax :| ax in AxiomsOf(axioms, c) && ax.EquivalentClasses?;
    assert ax in axioms + more;
    assert ax in AxiomsOf(axioms + more, c);
  }
}
