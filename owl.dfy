/** The part of the OWL 2 structural model that the heuristics read (class
    expressions of section 8 and class/property axioms of section 9 of the
    OWL 2 Structural Specification), the reasoner they query, and the
    ontology whose axiom set the missing-disjointness heuristic changes. */
module Owl {
  import opened Seqs

  /** Classes and object properties are identified by their IRIs; here by
      numbers, ordered like the IRIs they stand for. */
  type ClassId = nat
  type PropId = nat

  /** owl:Thing and owl:Nothing. */
  const Thing: ClassId := 0
  const Nothing: ClassId := 1

  datatype ClassExpr =
    | Atomic(cls: ClassId)                               // a named class
    | SomeValuesFrom(prop: PropId, filler: ClassExpr)    // ObjectSomeValuesFrom, section 8.2.1
    | AllValuesFrom(prop: PropId, filler: ClassExpr)     // ObjectAllValuesFrom, section 8.2.2
    | IntersectionOf(operands: seq<ClassExpr>)           // ObjectIntersectionOf, section 8.1.1
    | OtherExpr(children: seq<ClassExpr>)                // any other constructor, with its operands

  /** OWL API `ClassExpressionType`, restricted to the kinds told apart here. */
  datatype ExprKind = AtomicKind | SomeKind | AllKind | IntersectionKind | OtherKind

  function KindOf(e: ClassExpr): ExprKind
  {
    match e
    case Atomic(_) => AtomicKind
    case SomeValuesFrom(_, _) => SomeKind
    case AllValuesFrom(_, _) => AllKind
    case IntersectionOf(_) => IntersectionKind
    case OtherExpr(_) => OtherKind
  }

  /** OWL API `nestedClassExpressions()`: the expression itself and,
      recursively, everything it is built from. */
  function Nested(e: ClassExpr): set<ClassExpr>
    decreases e
  {
    {e} + match e
      case Atomic(_) => {}
      case SomeValuesFrom(_, f) => Nested(f)
      case AllValuesFrom(_, f) => Nested(f)
      case IntersectionOf(ops) => (set c, x | c in ops && x in Nested(c) :: x)
      case OtherExpr(ch) => (set c, x | c in ch && x in Nested(c) :: x)
  }

  /** Pre-order walk of an expression tree (with repetitions). */
  function PreOrder(e: ClassExpr): seq<ClassExpr>
    decreases e, 1
  {
    [e] + match e
      case Atomic(_) => []
      case SomeValuesFrom(_, f) => PreOrder(f)
      case AllValuesFrom(_, f) => PreOrder(f)
      case IntersectionOf(ops) => PreOrderAll(e, ops)
      case OtherExpr(ch) => PreOrderAll(e, ch)
  }

  function PreOrderAll(ghost parent: ClassExpr, es: seq<ClassExpr>): seq<ClassExpr>
    requires forall i :: 0 <= i < |es| ==> es[i] < parent
    decreases parent, 0, |es|
  {
    if es == [] then [] else PreOrder(es[0]) + PreOrderAll(parent, es[1..])
  }

  /** The number of nodes of an expression tree. */
  function Size(e: ClassExpr): nat
  {
    |PreOrder(e)|
  }

  lemma {:induction false} PreOrderIsNested(e: ClassExpr)
    ensures forall x :: x in PreOrder(e) <==> x in Nested(e)
    decreases e, 1
  {
    match e
    case Atomic(_) =>
    case SomeValuesFrom(_, f) => PreOrderIsNested(f);
    case AllValuesFrom(_, f) => PreOrderIsNested(f);
    case IntersectionOf(ops) => PreOrderAllIsNested(e, ops);
    case OtherExpr(ch) => PreOrderAllIsNested(e, ch);
  }

  lemma {:induction false} PreOrderAllIsNested(parent: ClassExpr, es: seq<ClassExpr>)
    requires forall i :: 0 <= i < |es| ==> es[i] < parent
    ensures forall x :: x in PreOrderAll(parent, es) <==> exists c :: c in es && x in Nested(c)
    decreases parent, 0, |es|
  {
    if es != [] {
      PreOrderIsNested(es[0]);
      PreOrderAllIsNested(parent, es[1..]);
      forall x ensures x in PreOrderAll(parent, es) <==> exists c :: c in es && x in Nested(c) {
        if x in Nested(es[0]) {
          assert es[0] in es;
        }
        if exists c :: c in es && x in Nested(c) {
          var c :| c in es && x in Nested(c);
          if c != es[0] {
            assert c in es[1..];
          }
        }
      }
    }
  }

  /** The nested expressions of `e`, each once, in pre-order. */
  function NestedList(e: ClassExpr): (r: seq<ClassExpr>)
    ensures forall x :: x in r <==> x in Nested(e)
    ensures NoDuplicates(r)
  {
    PreOrderIsNested(e);
    Distinct(PreOrder(e))
  }

  /** Nesting is transitive: `Nested` is closed under itself. */
  lemma {:induction false} NestedTransitive(e: ClassExpr, f: ClassExpr, x: ClassExpr)
    requires f in Nested(e) && x in Nested(f)
    ensures x in Nested(e)
    decreases e
  {
    if f != e {
      match e
      case Atomic(_) =>
      case SomeValuesFrom(_, g) => NestedTransitive(g, f, x);
      case AllValuesFrom(_, g) => NestedTransitive(g, f, x);
      case IntersectionOf(ops) =>
        var c :| c in ops && f in Nested(c);
        NestedTransitive(c, f, x);
      case OtherExpr(ch) =>
        var c :| c in ch && f in Nested(c);
        NestedTransitive(c, f, x);
    }
  }

  /** A strict sub-expression has fewer nodes. */
  lemma {:induction false} NestedIsSmaller(e: ClassExpr, x: ClassExpr)
    requires x in Nested(e)
    ensures x == e || Size(x) < Size(e)
    decreases e
  {
    if x != e {
      match e
      case Atomic(_) =>
      case SomeValuesFrom(_, g) => NestedIsSmaller(g, x);
      case AllValuesFrom(_, g) => NestedIsSmaller(g, x);
      case IntersectionOf(ops) =>
        var c :| c in ops && x in Nested(c);
        NestedIsSmaller(c, x);
        var i :| 0 <= i < |ops| && ops[i] == c;
        PreOrderAllCovers(e, ops, i);
      case OtherExpr(ch) =>
        var c :| c in ch && x in Nested(c);
        NestedIsSmaller(c, x);
        var i :| 0 <= i < |ch| && ch[i] == c;
        PreOrderAllCovers(e, ch, i);
    }
  }

  lemma {:induction false} PreOrderAllCovers(parent: ClassExpr, es: seq<ClassExpr>, i: nat)
    requires forall j :: 0 <= j < |es| ==> es[j] < parent
    requires i < |es|
    ensures Size(es[i]) <= |PreOrderAll(parent, es)|
    decreases |es|
  {
    if i > 0 {
      PreOrderAllCovers(parent, es[1..], i - 1);
    }
  }

  /** OWL API `classesInSignature()` of a class expression. */
  function Signature(e: ClassExpr): set<ClassId>
  {
    set x | x in Nested(e) && x.Atomic? :: x.cls
  }

  /** The axioms of sections 9.1.1-9.1.3 and 9.2.7; any other kind is kept
      with the classes it is about and the class expressions it holds.
      Member lists are in the order the OWL API stores them. */
  datatype Axiom =
    | SubClassOf(sub: ClassExpr, sup: ClassExpr)
    | EquivalentClasses(members: seq<ClassExpr>)
    | DisjointClasses(members: seq<ClassExpr>)
    | FunctionalObjectProperty(prop: PropId)
    | OtherAxiom(about: set<ClassId>, exprs: seq<ClassExpr>)

  /** The class expressions an axiom is made of. */
  function Components(ax: Axiom): seq<ClassExpr>
  {
    match ax
    case SubClassOf(sub, sup) => [sub, sup]
    case EquivalentClasses(ms) => ms
    case DisjointClasses(ms) => ms
    case FunctionalObjectProperty(_) => []
    case OtherAxiom(_, es) => es
  }

  /** OWL API `nestedClassExpressions()` of an axiom, each expression once. */
  function NestedInAxiom(ax: Axiom): (r: seq<ClassExpr>)
    ensures forall x :: x in r <==> exists c :: c in Components(ax) && x in Nested(c)
    ensures NoDuplicates(r)
  {
    Distinct(FlatMap(Components(ax), NestedList))
  }

  /** The nested expressions of `s` of kind `k`, in order. */
  function OfKind(s: seq<ClassExpr>, k: ExprKind): (r: seq<ClassExpr>)
    ensures forall x :: x in r <==> x in s && KindOf(x) == k
  {
    Filter(s, e => KindOf(e) == k)
  }

  /** OWL API `OWLOntology.axioms(OWLClass)`: the axioms that describe a
      class - its subclass axioms, and the equivalence, disjointness and
      other class axioms it takes part in. */
  predicate Describes(ax: Axiom, c: ClassId)
  {
    match ax
    case SubClassOf(sub, _) => sub == Atomic(c)
    case EquivalentClasses(ms) => Atomic(c) in ms
    case DisjointClasses(ms) => Atomic(c) in ms
    case FunctionalObjectProperty(_) => false
    case OtherAxiom(about, _) => c in about
  }

  function AxiomsOf(axioms: seq<Axiom>, c: ClassId): (r: seq<Axiom>)
    ensures forall ax :: ax in r <==> ax in axioms && Describes(ax, c)
  {
    Filter(axioms, ax => Describes(ax, c))
  }

  /** OWL API `functionalObjectPropertyAxioms(p)` is not empty. */
  predicate IsFunctional(axioms: seq<Axiom>, p: PropId)
  {
    FunctionalObjectProperty(p) in axioms
  }

  /** The reasoner, as the answers it gives for the ontology it was built on.
      Each stream of classes or properties is a sequence; only membership in
      it is ever used, except for the unsatisfiable classes, whose order the
      unsatisfiable-intersections heuristic keeps. */
  datatype Reasoner = Reasoner(
    topClassNode: seq<ClassId>,                     // owl:Thing and the classes equivalent to it
    superClasses: ClassExpr -> seq<ClassId>,        // all inferred strict superclasses
    subClasses: ClassExpr -> seq<ClassId>,          // all inferred strict subclasses
    disjointClasses: ClassId -> seq<ClassId>,
    superObjectProperties: PropId -> seq<PropId>,
    objectPropertyRanges: PropId -> seq<ClassId>,   // the direct range classes
    isSatisfiable: ClassExpr -> bool,
    unsatisfiableClasses: set<Axiom> -> seq<ClassId>, // the bottom node, for a given axiom set
    explanation: ClassId -> set<Axiom>              // one justification of an unsatisfiable class
  )

  /** The expressions of kind `k` nested in any axiom describing `c` or one
      of its inferred superclasses (the `superClass -> ontology.axioms(superClass)
      -> nestedClassExpressions()` chain two heuristics share). */
  function RestrictionsOnClassOrSupers(axioms: seq<Axiom>, r: Reasoner, c: ClassId, k: ExprKind): (rs: seq<ClassExpr>)
    ensures forall e :: e in rs ==> KindOf(e) == k
    ensures forall e :: e in rs <==>
      KindOf(e) == k &&
      exists s, ax :: s in [c] + r.superClasses(Atomic(c)) && ax in axioms && Describes(ax, s) && e in NestedInAxiom(ax)
  {
    var perAxiom := (ax: Axiom) => OfKind(NestedInAxiom(ax), k);
    var perClass := (s: ClassId) => FlatMap(AxiomsOf(axioms, s), perAxiom);
    var rs := FlatMap([c] + r.superClasses(Atomic(c)), perClass);
    assert forall e :: e in rs <==> exists s :: s in [c] + r.superClasses(Atomic(c)) && e in perClass(s);
    assert forall s, e :: e in perClass(s) <==> exists ax :: ax in AxiomsOf(axioms, s) && e in perAxiom(ax);
    rs
  }

  /** A defect candidate is the list of classes it names; the mapping to
      the reported record is not part of this model. */
  function AsCandidates(cs: seq<ClassId>): (candidates: seq<seq<ClassId>>)
    ensures |candidates| == |cs|
    ensures forall i :: 0 <= i < |cs| ==> candidates[i] == [cs[i]]
    ensures forall cand :: cand in candidates ==> |cand| == 1 && cand[0] in cs
  {
    MapSeq(cs, c => [c])
  }

  /** The ontology: its axiom set, enumerated without repetition. The only
      changes ever made are adding and removing a single axiom. */
  class Ontology {
    var axioms: seq<Axiom>

    ghost predicate Valid()
      reads this
    {
      NoDuplicates(axioms)
    }

    constructor (axioms: seq<Axiom>)
      requires NoDuplicates(axioms)
      ensures Valid() && this.axioms == axioms
    {
      this.axioms := axioms;
    }

    /** OWL API `addAxiom`: applied exactly when the axiom was not there yet. */
    method AddAxiom(ax: Axiom) returns (applied: bool)
      requires Valid()
      modifies this
      ensures Valid()
      ensures applied <==> ax !in old(axioms)
      ensures axioms == if applied then old(axioms) + [ax] else old(axioms)
    {
      applied := ax !in axioms;
      if applied {
        axioms := axioms + [ax];
      }
    }

    /** OWL API `remove`. */
    method RemoveAxiom(ax: Axiom)
      requires Valid()
      modifies this
      ensures Valid()
      ensures axioms == Without(old(axioms), ax)
    {
      axioms := Without(axioms, ax);
    }
  }
}
