/** Trivially-satisfiable-allValuesFrom heuristic: a universal restriction
    `p only F` on a class is satisfied vacuously when the class has no
    existential restriction on `p` (or a sub-property of it) whose filler
    could meet `F`. */
module TriviallySatisfiable {
  import opened Wrappers
  import opened Seqs
  import opened Owl

  /** The axioms the heuristic reads: EquivalentClasses and SubClassOf. */
  predicate IsDefining(ax: Axiom)
  {
    ax.EquivalentClasses? || ax.SubClassOf?
  }

  /** The class expression an axiom is about: the first member of an
      EquivalentClasses axiom, the subclass of a SubClassOf axiom; `None`
      when an EquivalentClasses axiom has no member to take. */
  function SubjectOf(ax: Axiom): Option<ClassExpr>
    requires IsDefining(ax)
  {
    if ax.SubClassOf? then Some(ax.sub)
    else if ax.members == [] then None
    else Some(ax.members[0])
  }

  /** Reading the axiom throws: it has no subject, or its subject is
      anonymous and a universal restriction is nested in it. */
  predicate CastFails(ax: Axiom)
  {
    IsDefining(ax)
    && (SubjectOf(ax).None? || (!SubjectOf(ax).value.Atomic? && OfKind(NestedInAxiom(ax), AllKind) != []))
  }

  /** `a` is a universal restriction nested in `ax`, a defining axiom about `c`. */
  predicate OwnRestriction(ax: Axiom, c: ClassId, a: ClassExpr)
  {
    IsDefining(ax) && SubjectOf(ax) == Some(Atomic(c)) && a in NestedInAxiom(ax) && a.AllValuesFrom?
  }

  ghost predicate SubjectRestriction(axioms: seq<Axiom>, c: ClassId, a: ClassExpr)
  {
    exists ax :: ax in axioms && OwnRestriction(ax, c, a)
  }

  predicate AllAllValuesFrom(pairs: seq<(ClassId, ClassExpr)>)
  {
    forall i :: 0 <= i < |pairs| ==> pairs[i].1.AllValuesFrom?
  }

  /** The first stage: every defining axiom contributes its subject paired
      with each universal restriction nested in it, in axiom order; `None`
      when reading some axiom throws. */
  function AllValuesFromBySubject(axioms: seq<Axiom>): (r: Option<seq<(ClassId, ClassExpr)>>)
    ensures r.Some? ==> AllAllValuesFrom(r.value)
    decreases |axioms|
  {
    if axioms == [] then Some([])
    else
      var rest := AllValuesFromBySubject(axioms[1..]);
      var ax := axioms[0];
      if !IsDefining(ax) then rest
      else if SubjectOf(ax).None? then None
      else
        var avfs := OfKind(NestedInAxiom(ax), AllKind);
        var subject := SubjectOf(ax).value;
        if avfs == [] then rest
        else if !subject.Atomic? || rest.None? then None
        else
          OwnPairsAreAllValuesFrom(subject.cls, avfs);
          Some(PairWith(subject.cls, avfs) + rest.value)
  }

  lemma OwnPairsAreAllValuesFrom(c: ClassId, avfs: seq<ClassExpr>)
    requires forall a :: a in avfs ==> KindOf(a) == AllKind
    ensures AllAllValuesFrom(PairWith(c, avfs))
  {
    var own := PairWith(c, avfs);
    forall i | 0 <= i < |own| ensures own[i].1.AllValuesFrom? {
      assert own[i].1 == avfs[i] && avfs[i] in avfs;
    }
  }

  lemma ConsMembers(axioms: seq<Axiom>)
    requires axioms != []
    ensures forall ax :: ax in axioms <==> ax == axioms[0] || ax in axioms[1..]
  {
  }

  /** The first stage fails exactly when reading some axiom throws. */
  lemma {:induction false} AllValuesFromBySubjectFails(axioms: seq<Axiom>)
    ensures AllValuesFromBySubject(axioms).None? <==> exists ax :: ax in axioms && CastFails(ax)
    decreases |axioms|
  {
    if axioms != [] {
      var ax := axioms[0];
      var rest := axioms[1..];
      AllValuesFromBySubjectFails(rest);
      ConsMembers(axioms);
      assert (exists a :: a in axioms && CastFails(a)) <==> CastFails(ax) || exists a :: a in rest && CastFails(a);
      if !IsDefining(ax) {
        assert AllValuesFromBySubject(axioms) == AllValuesFromBySubject(rest);
      } else if SubjectOf(ax).None? {
        assert CastFails(ax);
      } else if OfKind(NestedInAxiom(ax), AllKind) == [] {
        assert AllValuesFromBySubject(axioms) == AllValuesFromBySubject(rest);
      } else if !SubjectOf(ax).value.Atomic? {
        assert CastFails(ax);
      } else {
        assert AllValuesFromBySubject(axioms).None? <==> AllValuesFromBySubject(rest).None?;
      }
    }
  }

  /** One step of the first stage: the pairs of the first axiom come before
      those of the rest. */
  lemma AllValuesFromBySubjectStep(axioms: seq<Axiom>, c: ClassId, a: ClassExpr)
    requires axioms != [] && AllValuesFromBySubject(axioms).Some?
    ensures AllValuesFromBySubject(axioms[1..]).Some?
    ensures (c, a) in AllValuesFromBySubject(axioms).value <==>
      OwnRestriction(axioms[0], c, a) || (c, a) in AllValuesFromBySubject(axioms[1..]).value
  {
    var ax := axioms[0];
    var rest := AllValuesFromBySubject(axioms[1..]);
    if IsDefining(ax) && SubjectOf(ax).Some? {
      var avfs := OfKind(NestedInAxiom(ax), AllKind);
      assert OwnRestriction(ax, c, a) <==> SubjectOf(ax) == Some(Atomic(c)) && a in avfs;
      if avfs != [] {
        var subject := SubjectOf(ax).value;
        assert AllValuesFromBySubject(axioms) == Some(PairWith(subject.cls, avfs) + rest.value);
      }
    }
  }

  /** When it succeeds, the first stage holds exactly the universal
      restrictions of the defining axioms, each paired with its subject. */
  lemma {:induction false} AllValuesFromBySubjectMembers(axioms: seq<Axiom>, c: ClassId, a: ClassExpr)
    requires AllValuesFromBySubject(axioms).Some?
    ensures (c, a) in AllValuesFromBySubject(axioms).value <==> SubjectRestriction(axioms, c, a)
    decreases |axioms|
  {
    if axioms != [] {
      var rest := axioms[1..];
      ConsMembers(axioms);
      assert SubjectRestriction(axioms, c, a) <==> OwnRestriction(axioms[0], c, a) || SubjectRestriction(rest, c, a);
      AllValuesFromBySubjectStep(axioms, c, a);
      AllValuesFromBySubjectMembers(rest, c, a);
    }
  }

  /** Every pair also stands for each inferred subclass of its class, which
      inherits the restriction. */
  function WithSubclasses(r: Reasoner, pairs: seq<(ClassId, ClassExpr)>): (ps: seq<(ClassId, ClassExpr)>)
    ensures forall d, a :: (d, a) in ps <==>
      exists c :: (c, a) in pairs && (d == c || d in r.subClasses(Atomic(c)))
  {
    var expand := (p: (ClassId, ClassExpr)) => PairEach([p.0] + r.subClasses(Atomic(p.0)), p.1);
    var ps := FlatMap(pairs, expand);
    assert forall d, a :: (d, a) in ps <==> exists p :: p in pairs && (d, a) in expand(p);
    forall p: (ClassId, ClassExpr), d: ClassId, a
      ensures (d, a) in expand(p) <==> a == p.1 && (d == p.0 || d in r.subClasses(Atomic(p.0)))
    {
      var xs := [p.0] + r.subClasses(Atomic(p.0));
      assert expand(p) == PairEach(xs, p.1);
      assert (d, a) in expand(p) <==> d in xs && a == p.1;
    }
    ps
  }

  /** The classes that could meet the filler of `a`: those in its signature
      and their inferred superclasses and subclasses. */
  function CompatibleClasses(r: Reasoner, a: ClassExpr): set<ClassId>
    requires a.AllValuesFrom?
  {
    var sig := Signature(a.filler);
    sig
    + (set x, y | x in sig && y in r.superClasses(Atomic(x)) :: y)
    + (set x, y | x in sig && y in r.subClasses(Atomic(x)) :: y)
  }

  /** The existential restriction `s` could make `a` non-vacuous: it is on
      the same property or on a sub-property of it, and a class of its
      filler's signature is compatible with the filler of `a`. */
  predicate Fits(r: Reasoner, a: ClassExpr, s: ClassExpr)
    requires a.AllValuesFrom? && s.SomeValuesFrom?
  {
    (a.prop == s.prop || a.prop in r.superObjectProperties(s.prop))
    && exists x :: x in Signature(s.filler) && x in CompatibleClasses(r, a)
  }

  predicate HasFittingSomeValues(axioms: seq<Axiom>, r: Reasoner, c: ClassId, a: ClassExpr)
    requires a.AllValuesFrom?
  {
    exists s :: s in RestrictionsOnClassOrSupers(axioms, r, c, SomeKind) && s.SomeValuesFrom? && Fits(r, a, s)
  }

  predicate Flagged(axioms: seq<Axiom>, r: Reasoner, p: (ClassId, ClassExpr))
  {
    p.1.AllValuesFrom? && r.isSatisfiable(Atomic(p.0)) && !HasFittingSomeValues(axioms, r, p.0, p.1)
  }

  /** The (class, restriction) pairs reported, each once, in order; `None`
      when reading some axiom throws. */
  function TriviallySatisfiablePairs(axioms: seq<Axiom>, r: Reasoner): Option<seq<(ClassId, ClassExpr)>>
  {
    match AllValuesFromBySubject(axioms)
    case None => None
    case Some(pairs) => Some(Filter(Distinct(WithSubclasses(r, pairs)), p => Flagged(axioms, r, p)))
  }

  /** `findCandidates`: one single-class candidate per reported pair. */
  function FindCandidates(axioms: seq<Axiom>, r: Reasoner): (candidates: Option<seq<seq<ClassId>>>)
    ensures candidates.None? <==> TriviallySatisfiablePairs(axioms, r).None?
    ensures candidates.Some? ==>
      |candidates.value| == |TriviallySatisfiablePairs(axioms, r).value|
      && forall i :: 0 <= i < |candidates.value| ==> candidates.value[i] == [TriviallySatisfiablePairs(axioms, r).value[i].0]
  {
    match TriviallySatisfiablePairs(axioms, r)
    case None => None
    case Some(ps) => Some(AsCandidates(MapSeq(ps, (p: (ClassId, ClassExpr)) => p.0)))
  }

  /** Reference definition: the universal restriction `a`, stated on `c` or
      inherited from a class `c` is an inferred subclass of, is vacuous on
      the satisfiable class `d`. */
  ghost predicate VacuousOn(axioms: seq<Axiom>, r: Reasoner, d: ClassId, a: ClassExpr)
  {
    (exists c :: SubjectRestriction(axioms, c, a) && (d == c || d in r.subClasses(Atomic(c))))
    && a.AllValuesFrom?
    && r.isSatisfiable(Atomic(d))
    && !HasFittingSomeValues(axioms, r, d, a)
  }

  /** The heuristic fails exactly when reading some axiom throws; otherwise
      it reports each pair once, and a pair exactly when the restriction is
      vacuous on the class. */
  lemma TriviallySatisfiablePairsSpec(axioms: seq<Axiom>, r: Reasoner)
    ensures TriviallySatisfiablePairs(axioms, r).None? <==> exists ax :: ax in axioms && CastFails(ax)
    ensures TriviallySatisfiablePairs(axioms, r).Some? ==>
      NoDuplicates(TriviallySatisfiablePairs(axioms, r).value)
      && forall d: ClassId, a :: (d, a) in TriviallySatisfiablePairs(axioms, r).value <==> VacuousOn(axioms, r, d, a)
  {
    AllValuesFromBySubjectFails(axioms);
    var res := TriviallySatisfiablePairs(axioms, r);
    if res.Some? {
      var pairs := AllValuesFromBySubject(axioms).value;
      var candidates := Distinct(WithSubclasses(r, pairs));
      var flagged := p => Flagged(axioms, r, p);
      assert res.value == Filter(candidates, flagged);
      FilterNoDuplicates(candidates, flagged);
      forall d: ClassId, a ensures (d, a) in res.value <==> VacuousOn(axioms, r, d, a) {
        forall c: ClassId {
          AllValuesFromBySubjectMembers(axioms, c, a);
        }
      }
    }
  }

  /** Stating an existential restriction on the same property, whose filler
      is a class of the universal restriction's filler, on the class itself
      removes the report. */
  lemma WitnessRestrictionFits(axioms: seq<Axiom>, r: Reasoner, d: ClassId, a: ClassExpr, x: ClassId)
    requires a.AllValuesFrom?
    requires x in Signature(a.filler)
    ensures HasFittingSomeValues(axioms + [SubClassOf(Atomic(d), SomeValuesFrom(a.prop, Atomic(x)))], r, d, a)
  {
    var s := SomeValuesFrom(a.prop, Atomic(x));
    var ax := SubClassOf(Atomic(d), s);
    var extended := axioms + [ax];
    assert s in Nested(s);
    assert s in NestedInAxiom(ax);
    assert ax in extended && Describes(ax, d);
    assert d in [d] + r.superClasses(Atomic(d));
    assert s in RestrictionsOnClassOrSupers(extended, r, d, SomeKind);
    assert Atomic(x) in Nested(Atomic(x));
    assert x in Signature(s.filler);
    assert x in CompatibleClasses(r, a);
  }
}
