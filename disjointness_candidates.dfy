/** Stages 1-7 of the missing-disjointness heuristic: from the class
    hierarchy the reasoner infers, the pairs of classes that are neither
    related by subsumption nor disjoint, reduced to the most general pairs. */
module DisjointnessCandidates {
  import opened Seqs
  import opened Owl
  import opened CommonFunctions

  /** A pair of classes, first and second. */
  type Pair = (ClassId, ClassId)

  /** The classes the reasoner reports unsatisfiable. */
  function UnsatisfiableSet(axioms: seq<Axiom>, r: Reasoner): set<ClassId>
  {
    Elems(r.unsatisfiableClasses(Elems(axioms)))
  }

  /** Stage 1: the inferred subclasses of the top node that are satisfiable
      and not fully defined. */
  function NonDefinedClasses(axioms: seq<Axiom>, r: Reasoner): set<ClassId>
  {
    set t, c | t in r.topClassNode && c in r.subClasses(Atomic(t))
                 && c !in UnsatisfiableSet(axioms, r) && !IsEquivalentClass(axioms, c) :: c
  }

  /** Stage 2: the inferred superclasses of `c`, owl:Thing and fully defined
      classes left out, and `c` itself. */
  function SuperClassSet(axioms: seq<Axiom>, r: Reasoner, c: ClassId): set<ClassId>
  {
    (set x | x in r.superClasses(Atomic(c)) && x != Thing && !IsEquivalentClass(axioms, x)) + {c}
  }

  /** Stage 2: the satisfiable classes inferred disjoint with `c`. */
  function DisjointSet(axioms: seq<Axiom>, r: Reasoner, c: ClassId): set<ClassId>
  {
    set x | x in r.disjointClasses(c) && x !in UnsatisfiableSet(axioms, r)
  }

  /** The working classes with their superclass sets (`anc`, each holding the
      class itself) and disjoint sets (`disj`). */
  datatype Hierarchy = Hierarchy(classes: set<ClassId>, anc: map<ClassId, set<ClassId>>, disj: map<ClassId, set<ClassId>>)
  {
    /** Every lookup the heuristic makes finds an entry. */
    predicate Valid()
    {
      anc.Keys == classes && disj.Keys == classes
      && forall c :: c in classes ==> c in anc[c] && anc[c] <= classes
    }

    /** A superclass of a superclass is a superclass. */
    predicate Transitive()
      requires Valid()
    {
      forall a, b :: a in classes && b in anc[a] ==> anc[b] <= anc[a]
    }

    /** Two distinct classes are never superclasses of each other. */
    predicate Antisymmetric()
      requires Valid()
    {
      forall a, b :: a in classes && b in anc[a] && a in anc[b] ==> a == b
    }
  }

  function BuildHierarchy(axioms: seq<Axiom>, r: Reasoner): Hierarchy
  {
    var w := NonDefinedClasses(axioms, r);
    Hierarchy(w, map c | c in w :: SuperClassSet(axioms, r, c), map c | c in w :: DisjointSet(axioms, r, c))
  }

  /** What the `!!` lookups of the source demand of the reasoner: every
      superclass kept for a working class is a working class. */
  predicate SuperClassesKnown(axioms: seq<Axiom>, r: Reasoner)
  {
    forall c :: c in NonDefinedClasses(axioms, r) ==> SuperClassSet(axioms, r, c) <= NonDefinedClasses(axioms, r)
  }

  lemma BuildHierarchyValid(axioms: seq<Axiom>, r: Reasoner)
    requires SuperClassesKnown(axioms, r)
    ensures BuildHierarchy(axioms, r).Valid()
  {
  }

  /** When the reasoner's superclasses are transitive, so are the stage 2 sets. */
  lemma BuildHierarchyTransitive(axioms: seq<Axiom>, r: Reasoner)
    requires SuperClassesKnown(axioms, r)
    requires forall a, b, x :: b in r.superClasses(Atomic(a)) && x in r.superClasses(Atomic(b)) ==> x in r.superClasses(Atomic(a))
    ensures BuildHierarchy(axioms, r).Valid() && BuildHierarchy(axioms, r).Transitive()
  {
    BuildHierarchyValid(axioms, r);
    var h := BuildHierarchy(axioms, r);
    forall a, b | a in h.classes && b in h.anc[a] ensures h.anc[b] <= h.anc[a] {
      assert b in h.classes;
      assert h.anc[a] == SuperClassSet(axioms, r, a);
      assert h.anc[b] == SuperClassSet(axioms, r, b);
      SuperClassSetTransitive(axioms, r, a, b);
    }
  }

  lemma SuperClassSetTransitive(axioms: seq<Axiom>, r: Reasoner, a: ClassId, b: ClassId)
    requires forall a, b, x :: b in r.superClasses(Atomic(a)) && x in r.superClasses(Atomic(b)) ==> x in r.superClasses(Atomic(a))
    requires b in SuperClassSet(axioms, r, a)
    ensures SuperClassSet(axioms, r, b) <= SuperClassSet(axioms, r, a)
  {
    if b != a {
      assert b in r.superClasses(Atomic(a));
      forall x | x in SuperClassSet(axioms, r, b) ensures x in SuperClassSet(axioms, r, a) {
        if x != b {
          assert x in r.superClasses(Atomic(b));
        }
      }
    }
  }

  /** Every component of every pair is a working class. */
  predicate PairsWithin(h: Hierarchy, ps: set<Pair>)
  {
    forall p :: p in ps ==> p.0 in h.classes && p.1 in h.classes
  }

  /** Stage 3: the ordered pairs of working classes that are not sub- or
      superclasses of each other and where the second is not known disjoint
      with the first. */
  function NonDisjointPairs(h: Hierarchy): (ps: set<Pair>)
    requires h.Valid()
    ensures PairsWithin(h, ps)
  {
    set a, b | a in h.classes && b in h.classes && b !in h.anc[a] && a !in h.anc[b] && b !in h.disj[a] :: (a, b)
  }

  /** Stage 4, the keys: every class that is first in some pair. */
  function PairFirsts(ps: set<Pair>): set<ClassId>
  {
    set p | p in ps :: p.0
  }

  /** Stage 4, the values: the other member of every pair `c` is in. */
  function Partners(ps: set<Pair>, c: ClassId): set<ClassId>
  {
    (set p | p in ps && p.0 == c :: p.1) + (set p | p in ps && p.0 != c && p.1 == c :: p.0)
  }

  /** A partner of a class is a different working class, and neither is a
      superclass of the other; a key has at least one partner. */
  lemma PartnersSpec(h: Hierarchy, c: ClassId, d: ClassId)
    requires h.Valid()
    ensures c in PairFirsts(NonDisjointPairs(h)) ==> Partners(NonDisjointPairs(h), c) != {}
    ensures d in Partners(NonDisjointPairs(h), c) ==>
      c in h.classes && d in h.classes && d != c && d !in h.anc[c] && c !in h.anc[d]
  {
    var ps := NonDisjointPairs(h);
    if c in PairFirsts(ps) {
      var p :| p in ps && p.0 == c;
      assert p.1 in Partners(ps, c);
    }
    if d in Partners(ps, c) {
      if d in (set p | p in ps && p.0 == c :: p.1) {
        var p :| p in ps && p.0 == c && p.1 == d;
      } else {
        var p :| p in ps && p.0 != c && p.1 == c && p.0 == d;
      }
    }
  }

  /** `filterTopSuperClasses`: the members of `s` none of whose superclasses
      is another member of `s`. */
  function FilterTopSuperClasses(anc: map<ClassId, set<ClassId>>, s: set<ClassId>): (top: set<ClassId>)
    requires s <= anc.Keys
    ensures top <= s
  {
    set x | x in s && forall y :: y in s && y != x ==> y !in anc[x]
  }

  /** Filtering twice keeps what filtering once keeps. */
  lemma FilterTopIdempotent(anc: map<ClassId, set<ClassId>>, s: set<ClassId>)
    requires s <= anc.Keys
    ensures FilterTopSuperClasses(anc, FilterTopSuperClasses(anc, s)) == FilterTopSuperClasses(anc, s)
  {
    var top := FilterTopSuperClasses(anc, s);
    forall x | x in top ensures x in FilterTopSuperClasses(anc, top) {
      assert forall y :: y in top && y != x ==> y !in anc[x];
    }
  }

  /** A proper subset is smaller; used for the termination of
      `FilterTopCovers` and by `SubsetNotSmaller` and `SubsetCardinality`. */
  lemma ProperSubsetSmaller(a: set<ClassId>, b: set<ClassId>, x: ClassId)
    requires a <= b && x in b && x !in a
    ensures |a| < |b|
  {
    assert b == a + (b - a);
    assert x in b - a;
  }

  /** In a transitive, antisymmetric hierarchy every member of `s` has one of
      its superclasses (possibly itself) among the members kept: filtering
      loses no class that is not covered by a more general one. */
  lemma {:induction false} FilterTopCovers(h: Hierarchy, s: set<ClassId>, x: ClassId)
    requires h.Valid() && h.Transitive() && h.Antisymmetric()
    requires s <= h.classes && x in s
    ensures exists t :: t in FilterTopSuperClasses(h.anc, s) && t in h.anc[x]
    decreases |h.anc[x] * s|
  {
    var top := FilterTopSuperClasses(h.anc, s);
    if x in top {
      assert x in h.anc[x];
    } else {
      var y :| y in s && y != x && y in h.anc[x];
      assert h.anc[y] <= h.anc[x];
      assert x !in h.anc[y];
      ProperSubsetSmaller(h.anc[y] * s, h.anc[x] * s, x);
      FilterTopCovers(h, s, y);
      var t :| t in top && t in h.anc[y];
    }
  }

  /** What the stage 5 fallback, taken when two partners have no common
      superclass outside those of the class, contributes: as written in the
      source (the union of their superclass sets, the subtraction of the
      class's own superclasses being discarded), or as evidently intended. */
  datatype Fallback = AsWritten | Corrected

  /** The superclasses two partners share that are neither superclasses of
      the class nor disjoint with it. */
  function CommonSuperClasses(h: Hierarchy, c: ClassId, d1: ClassId, d2: ClassId): (m: set<ClassId>)
    requires h.Valid() && c in h.classes && d1 in h.classes && d2 in h.classes
    ensures m <= h.classes
  {
    set x | x in h.anc[d1] && x in h.anc[d2] && x !in h.anc[c] && x !in h.disj[c]
  }

  /** Stage 5, for one combination of two partners. */
  function PairContribution(h: Hierarchy, c: ClassId, d1: ClassId, d2: ClassId, fallback: Fallback): (s: set<ClassId>)
    requires h.Valid() && c in h.classes && d1 in h.classes && d2 in h.classes
    ensures s <= h.classes
  {
    var m := CommonSuperClasses(h, c, d1, d2);
    if m != {} then FilterTopSuperClasses(h.anc, m)
    else if fallback == AsWritten then h.anc[d1] + h.anc[d2]
    else h.anc[d1] + h.anc[d2] - h.anc[c]
  }

  /** The contribution does not depend on the order of the two partners, so
      taking every combination once is the same as taking both orders. */
  lemma PairContributionSymmetric(h: Hierarchy, c: ClassId, d1: ClassId, d2: ClassId, fallback: Fallback)
    requires h.Valid() && c in h.classes && d1 in h.classes && d2 in h.classes
    ensures PairContribution(h, c, d1, d2, fallback) == PairContribution(h, c, d2, d1, fallback)
  {
    assert CommonSuperClasses(h, c, d1, d2) == CommonSuperClasses(h, c, d2, d1);
  }

  /** The union of the contributions of all combinations of two partners. */
  function AllContributions(h: Hierarchy, ds: set<ClassId>, c: ClassId, fallback: Fallback): (s: set<ClassId>)
    requires h.Valid() && c in h.classes && ds <= h.classes
    ensures s <= h.classes
  {
    set d1, d2, x | d1 in ds && d2 in ds && d1 != d2 && x in PairContribution(h, c, d1, d2, fallback) :: x
  }

  /** Stage 5: the top disjointness candidates of a class: its only partner,
      or the most general of the contributions of its partners. */
  function TopCandidates(h: Hierarchy, ps: set<Pair>, c: ClassId, fallback: Fallback): (top: set<ClassId>)
    requires h.Valid() && PairsWithin(h, ps) && c in h.classes
    ensures top <= h.classes
  {
    var ds := Partners(ps, c);
    if |ds| == 1 then ds
    else FilterTopSuperClasses(h.anc, AllContributions(h, ds, c, fallback))
  }

  /** With the corrected fallback, what two partners contribute is neither a
      superclass nor a subclass of the class. */
  lemma ContributionUnrelated(h: Hierarchy, c: ClassId, d1: ClassId, d2: ClassId, t: ClassId)
    requires h.Valid() && h.Transitive()
    requires c in h.classes && d1 in h.classes && d2 in h.classes
    requires c !in h.anc[d1] && c !in h.anc[d2]
    requires t in PairContribution(h, c, d1, d2, Corrected)
    ensures t !in h.anc[c] && c !in h.anc[t]
  {
    var m := CommonSuperClasses(h, c, d1, d2);
    if m != {} {
      assert t in m;
    }
    assert t in h.anc[d1] || t in h.anc[d2];
    if t in h.anc[d1] {
      assert h.anc[t] <= h.anc[d1];
    } else {
      assert h.anc[t] <= h.anc[d2];
    }
  }

  /** With the corrected fallback, no top candidate of a class is the class,
      one of its superclasses, or one of its subclasses. */
  lemma TopCandidatesUnrelated(h: Hierarchy, c: ClassId, t: ClassId)
    requires h.Valid() && h.Transitive() && c in h.classes
    requires t in TopCandidates(h, NonDisjointPairs(h), c, Corrected)
    ensures t != c && t !in h.anc[c] && c !in h.anc[t]
  {
    var ps := NonDisjointPairs(h);
    var ds := Partners(ps, c);
    if |ds| == 1 {
      PartnersSpec(h, c, t);
    } else {
      var all := AllContributions(h, ds, c, Corrected);
      assert t in all;
      var d1, d2 :| d1 in ds && d2 in ds && d1 != d2 && t in PairContribution(h, c, d1, d2, Corrected);
      PartnersSpec(h, c, d1);
      PartnersSpec(h, c, d2);
      ContributionUnrelated(h, c, d1, d2, t);
    }
  }

  /** The hierarchy of the counterexample: classes 2, 3 and 4 under a common
      superclass 5, no disjointness known. */
  function SharedRootHierarchy(): Hierarchy
  {
    Hierarchy({2, 3, 4, 5},
              map[2 := {2, 5}, 3 := {3, 5}, 4 := {4, 5}, 5 := {5}],
              map[2 := {}, 3 := {}, 4 := {}, 5 := {}])
  }

  /** As written, the fallback makes a superclass of a class one of its top
      disjointness candidates: class 2's partners 3 and 4 share only 5, a
      superclass of 2, so their contribution is {3, 4, 5}, whose most general
      member is 5. */
  lemma AsWrittenFallbackProposesSuperclass()
    ensures SharedRootHierarchy().Valid()
    ensures 5 in TopCandidates(SharedRootHierarchy(), NonDisjointPairs(SharedRootHierarchy()), 2, AsWritten)
    ensures 5 in SharedRootHierarchy().anc[2]
  {
    var h := SharedRootHierarchy();
    var ps := NonDisjointPairs(h);
    assert (2, 3) in ps && (2, 4) in ps;
    assert (2, 5) !in ps && (5, 2) !in ps && (2, 2) !in ps;
    var ds := Partners(ps, 2);
    assert 3 in ds && 4 in ds;
    assert ds == {3, 4} by {
      forall d | d in ds ensures d == 3 || d == 4 {
        PartnersSpec(h, 2, d);
      }
    }
    assert |ds| == 2 by {
      assert ds == {3} + {4};
    }
    assert CommonSuperClasses(h, 2, 3, 4) == {};
    var all := AllContributions(h, ds, 2, AsWritten);
    assert 5 in PairContribution(h, 2, 3, 4, AsWritten);
    assert 5 in all;
    assert 5 in FilterTopSuperClasses(h.anc, all);
  }

  /** Stage 6: a pair ordered by class order (the order of the classes' IRIs). */
  function Normalized(a: ClassId, b: ClassId): (p: Pair)
    ensures p.0 <= p.1
    ensures (p == (a, b) || p == (b, a))
  {
    if a < b then (a, b) else (b, a)
  }

  /** Stage 6: every class paired with each of its top candidates, each pair
      once. */
  function ReducedPairs(h: Hierarchy, ps: set<Pair>, fallback: Fallback): (rs: set<Pair>)
    requires h.Valid() && PairsWithin(h, ps)
    ensures PairsWithin(h, rs)
  {
    set c, t | c in PairFirsts(ps) && c in h.classes && t in TopCandidates(h, ps, c, fallback) :: Normalized(c, t)
  }

  /** With the corrected fallback, every reduced pair joins two distinct
      classes in class order, neither a superclass of the other. */
  lemma ReducedPairsUnrelated(h: Hierarchy, p: Pair)
    requires h.Valid() && h.Transitive()
    requires p in ReducedPairs(h, NonDisjointPairs(h), Corrected)
    ensures p.0 < p.1
    ensures p.0 !in h.anc[p.1] && p.1 !in h.anc[p.0]
  {
    var ps := NonDisjointPairs(h);
    var c, t :| c in PairFirsts(ps) && c in h.classes && t in TopCandidates(h, ps, c, Corrected) && p == Normalized(c, t);
    TopCandidatesUnrelated(h, c, t);
  }

  /** In the counterexample hierarchy each of 2, 3 and 4 has the other two as
      partners. */
  lemma SharedRootPartners(c: ClassId, d1: ClassId, d2: ClassId)
    requires c in {2, 3, 4} && d1 in {2, 3, 4} && d2 in {2, 3, 4} && c != d1 && c != d2 && d1 != d2
    ensures SharedRootHierarchy().Valid()
    ensures Partners(NonDisjointPairs(SharedRootHierarchy()), c) == {d1, d2}
  {
    var h := SharedRootHierarchy();
    assert c in h.classes && d1 in h.classes && d2 in h.classes;
    var ps := NonDisjointPairs(h);
    var ds := Partners(ps, c);
    assert (c, d1) in ps && (c, d2) in ps;
    forall d | d in ds ensures d == d1 || d == d2 {
      PartnersSpec(h, c, d);
    }
  }

  /** Class 5 is a superclass of every other class, so it has no partner. */
  lemma SharedRootFirsts()
    ensures SharedRootHierarchy().Valid()
    ensures PairFirsts(NonDisjointPairs(SharedRootHierarchy())) == {2, 3, 4}
  {
    var ps := NonDisjointPairs(SharedRootHierarchy());
    assert (2, 3) in ps && (3, 2) in ps && (4, 2) in ps;
    forall x | x in PairFirsts(ps) ensures x in {2, 3, 4} {
      var p :| p in ps && p.0 == x;
    }
  }

  /** The two partners of a class of the counterexample share no superclass
      outside those of the class, so the fallback applies, and as written it
      brings in 5. */
  lemma SharedRootAsWrittenContribution(c: ClassId, d1: ClassId, d2: ClassId)
    requires c in {2, 3, 4} && d1 in {2, 3, 4} && d2 in {2, 3, 4} && c != d1 && c != d2 && d1 != d2
    ensures SharedRootHierarchy().Valid()
    ensures 5 in PairContribution(SharedRootHierarchy(), c, d1, d2, AsWritten)
  {
    var h := SharedRootHierarchy();
    assert c in h.classes && d1 in h.classes && d2 in h.classes;
    assert h.anc[d1] * h.anc[d2] <= h.anc[c];
    assert CommonSuperClasses(h, c, d1, d2) == {};
  }

  /** With the corrected fallback the same two partners contribute
      themselves. */
  lemma SharedRootCorrectedContribution(c: ClassId, d1: ClassId, d2: ClassId)
    requires c in {2, 3, 4} && d1 in {2, 3, 4} && d2 in {2, 3, 4} && c != d1 && c != d2 && d1 != d2
    ensures SharedRootHierarchy().Valid()
    ensures PairContribution(SharedRootHierarchy(), c, d1, d2, Corrected) == {d1, d2}
  {
    var h := SharedRootHierarchy();
    assert c in h.classes && d1 in h.classes && d2 in h.classes;
    assert h.anc[d1] * h.anc[d2] <= h.anc[c];
    assert CommonSuperClasses(h, c, d1, d2) == {};
  }

  /** Among classes of the counterexample that include 5, only 5 is most
      general. */
  lemma SharedRootFilterTop(s: set<ClassId>)
    requires s <= {2, 3, 4, 5} && 5 in s
    ensures SharedRootHierarchy().Valid()
    ensures FilterTopSuperClasses(SharedRootHierarchy().anc, s) == {5}
  {
    var h := SharedRootHierarchy();
    var top := FilterTopSuperClasses(h.anc, s);
    assert 5 in top by {
      assert h.anc[5] == {5};
    }
    forall t | t in s && t != 5 ensures t !in top {
      assert 5 in h.anc[t];
    }
  }

  /** Two siblings of the counterexample are both most general. */
  lemma SharedRootFilterTopSiblings(d1: ClassId, d2: ClassId)
    requires d1 in {2, 3, 4} && d2 in {2, 3, 4}
    ensures SharedRootHierarchy().Valid()
    ensures FilterTopSuperClasses(SharedRootHierarchy().anc, {d1, d2}) == {d1, d2}
  {
    var h := SharedRootHierarchy();
    assert h.anc[d1] == {d1, 5} && h.anc[d2] == {d2, 5};
  }

  /** As written, every class of the counterexample has 5, a superclass of
      it, as its only top candidate. */
  lemma SharedRootAsWrittenTop(c: ClassId, d1: ClassId, d2: ClassId)
    requires c in {2, 3, 4} && d1 in {2, 3, 4} && d2 in {2, 3, 4} && c != d1 && c != d2 && d1 != d2
    ensures SharedRootHierarchy().Valid()
    ensures TopCandidates(SharedRootHierarchy(), NonDisjointPairs(SharedRootHierarchy()), c, AsWritten) == {5}
  {
    var h := SharedRootHierarchy();
    assert c in h.classes && d1 in h.classes && d2 in h.classes;
    var ps := NonDisjointPairs(h);
    SharedRootPartners(c, d1, d2);
    SharedRootAsWrittenContribution(c, d1, d2);
    ContributionsOfTwo(h, c, d1, d2, AsWritten);
    TopCandidatesOfPartners(h, ps, c, AsWritten, {d1, d2}, d1, d2);
    SharedRootFilterTop(AllContributions(h, {d1, d2}, c, AsWritten));
  }

  /** With the corrected fallback, two siblings of a class contribute
      exactly themselves. */
  lemma SharedRootCorrectedAll(c: ClassId, d1: ClassId, d2: ClassId)
    requires c in {2, 3, 4} && d1 in {2, 3, 4} && d2 in {2, 3, 4} && c != d1 && c != d2 && d1 != d2
    ensures SharedRootHierarchy().Valid()
    ensures AllContributions(SharedRootHierarchy(), {d1, d2}, c, Corrected) == {d1, d2}
  {
    var h := SharedRootHierarchy();
    assert c in h.classes && d1 in h.classes && d2 in h.classes;
    SharedRootCorrectedContribution(c, d1, d2);
    ContributionsOfTwo(h, c, d1, d2, Corrected);
  }

  /** Two partners contribute what their one combination contributes. */
  lemma ContributionsOfTwo(h: Hierarchy, c: ClassId, d1: ClassId, d2: ClassId, fallback: Fallback)
    requires h.Valid() && c in h.classes && d1 in h.classes && d2 in h.classes && d1 != d2
    ensures AllContributions(h, {d1, d2}, c, fallback) == PairContribution(h, c, d1, d2, fallback)
  {
    PairContributionSymmetric(h, c, d1, d2, fallback);
    var all := AllContributions(h, {d1, d2}, c, fallback);
    forall x | x in all ensures x in PairContribution(h, c, d1, d2, fallback) {
      var e1, e2 :| e1 in {d1, d2} && e2 in {d1, d2} && e1 != e2 && x in PairContribution(h, c, e1, e2, fallback);
    }
  }

  /** With the corrected fallback, the top candidates of a class of the
      counterexample are exactly its two siblings. */
  lemma SharedRootCorrectedTop(c: ClassId, d1: ClassId, d2: ClassId)
    requires c in {2, 3, 4} && d1 in {2, 3, 4} && d2 in {2, 3, 4} && c != d1 && c != d2 && d1 != d2
    ensures SharedRootHierarchy().Valid()
    ensures TopCandidates(SharedRootHierarchy(), NonDisjointPairs(SharedRootHierarchy()), c, Corrected) == {d1, d2}
  {
    var h := SharedRootHierarchy();
    assert c in h.classes && {d1, d2} <= h.classes;
    var ps := NonDisjointPairs(h);
    SharedRootPartners(c, d1, d2);
    SharedRootCorrectedAll(c, d1, d2);
    SharedRootFilterTopSiblings(d1, d2);
    TopCandidatesOfPartners(h, ps, c, Corrected, {d1, d2}, d1, d2);
  }

  /** The top candidates of a class with more than one partner, in terms of
      its partner set. */
  lemma TopCandidatesOfPartners(h: Hierarchy, ps: set<Pair>, c: ClassId, fallback: Fallback, ds: set<ClassId>, d1: ClassId, d2: ClassId)
    requires h.Valid() && PairsWithin(h, ps) && c in h.classes
    requires Partners(ps, c) == ds && ds <= h.classes
    requires d1 in ds && d2 in ds && d1 != d2
    ensures TopCandidates(h, ps, c, fallback) == FilterTopSuperClasses(h.anc, AllContributions(h, ds, c, fallback))
  {
    SubsetCardinality(ds, d1, d2);
  }

  /** A set with two distinct members does not have exactly one. */
  lemma SubsetCardinality(ds: set<ClassId>, d1: ClassId, d2: ClassId)
    requires d1 in ds && d2 in ds && d1 != d2
    ensures |ds| != 1
  {
    if |ds| == 1 {
      var x :| x in ds;
      ProperSubsetSmaller({x}, ds, if d1 == x then d2 else d1);
    }
  }

  /** Stage 6 on the counterexample, as written: every class is paired with
      its superclass 5. */
  lemma SharedRootReducedAsWritten()
    ensures SharedRootHierarchy().Valid()
    ensures ReducedPairs(SharedRootHierarchy(), NonDisjointPairs(SharedRootHierarchy()), AsWritten) == {(2, 5), (3, 5), (4, 5)}
  {
    var h := SharedRootHierarchy();
    assert {2, 3, 4} <= h.classes;
    var ps := NonDisjointPairs(h);
    SharedRootFirsts();
    SharedRootAsWrittenTop(2, 3, 4);
    SharedRootAsWrittenTop(3, 2, 4);
    SharedRootAsWrittenTop(4, 2, 3);
    ReducedToRoot(h, ps);
  }

  /** Stage 6 when each of 2, 3 and 4 has 5 as its only top candidate. */
  lemma ReducedToRoot(h: Hierarchy, ps: set<Pair>)
    requires h.Valid() && PairsWithin(h, ps) && {2, 3, 4} <= h.classes
    requires PairFirsts(ps) == {2, 3, 4}
    requires TopCandidates(h, ps, 2, AsWritten) == {5}
    requires TopCandidates(h, ps, 3, AsWritten) == {5}
    requires TopCandidates(h, ps, 4, AsWritten) == {5}
    ensures ReducedPairs(h, ps, AsWritten) == {(2, 5), (3, 5), (4, 5)}
  {
    ReducedWithin(h, ps, AsWritten, {(2, 5), (3, 5), (4, 5)});
    ReducedMember(h, ps, AsWritten, 2, 5);
    ReducedMember(h, ps, AsWritten, 3, 5);
    ReducedMember(h, ps, AsWritten, 4, 5);
  }

  /** Every reduced pair is in `e` when every class among 2, 3 and 4 paired
      with one of its top candidates is. */
  lemma ReducedWithin(h: Hierarchy, ps: set<Pair>, fallback: Fallback, e: set<Pair>)
    requires h.Valid() && PairsWithin(h, ps) && {2, 3, 4} <= h.classes
    requires PairFirsts(ps) == {2, 3, 4}
    requires forall c, t :: c in {2, 3, 4} && t in TopCandidates(h, ps, c, fallback) ==> Normalized(c, t) in e
    ensures ReducedPairs(h, ps, fallback) <= e
  {
    forall p | p in ReducedPairs(h, ps, fallback) ensures p in e {
      var c, t :| c in PairFirsts(ps) && c in h.classes && t in TopCandidates(h, ps, c, fallback) && p == Normalized(c, t);
      OneOfThree(PairFirsts(ps), c);
    }
  }

  /** The bound half of `ReducedToSiblings`. */
  lemma ReducedWithinSiblings(h: Hierarchy, ps: set<Pair>)
    requires h.Valid() && PairsWithin(h, ps) && {2, 3, 4} <= h.classes
    requires PairFirsts(ps) == {2, 3, 4}
    requires TopCandidates(h, ps, 2, Corrected) == {3, 4}
    requires TopCandidates(h, ps, 3, Corrected) == {2, 4}
    requires TopCandidates(h, ps, 4, Corrected) == {2, 3}
    ensures ReducedPairs(h, ps, Corrected) <= {(2, 3), (2, 4), (3, 4)}
  {
    var e := {(2, 3), (2, 4), (3, 4)};
    forall c, t | c in {2, 3, 4} && t in TopCandidates(h, ps, c, Corrected) ensures Normalized(c, t) in e {
      SiblingPairNormalized(c, t, TopCandidates(h, ps, c, Corrected));
    }
    ReducedWithin(h, ps, Corrected, e);
  }

  /** Each class among 2, 3 and 4 paired with one of the other two, in class
      order, is one of the three sibling pairs. */
  lemma SiblingPairNormalized(c: ClassId, t: ClassId, top: set<ClassId>)
    requires c in {2, 3, 4} && t in top
    requires c == 2 ==> top == {3, 4}
    requires c == 3 ==> top == {2, 4}
    requires c == 4 ==> top == {2, 3}
    ensures Normalized(c, t) in {(2, 3), (2, 4), (3, 4)}
  {
  }

  /** Case split on a member of {2, 3, 4}. */
  lemma OneOfThree(s: set<ClassId>, c: ClassId)
    requires s == {2, 3, 4} && c in s
    ensures c == 2 || c == 3 || c == 4
  {
  }

  /** A class paired with one of its top candidates is a reduced pair. */
  lemma ReducedMember(h: Hierarchy, ps: set<Pair>, fallback: Fallback, c: ClassId, t: ClassId)
    requires h.Valid() && PairsWithin(h, ps) && c in h.classes
    requires c in PairFirsts(ps) && t in TopCandidates(h, ps, c, fallback)
    ensures Normalized(c, t) in ReducedPairs(h, ps, fallback)
  {
  }

  /** Stage 6 on the counterexample, corrected: the three siblings are
      paired with each other. */
  lemma SharedRootReducedCorrected()
    ensures SharedRootHierarchy().Valid()
    ensures ReducedPairs(SharedRootHierarchy(), NonDisjointPairs(SharedRootHierarchy()), Corrected) == {(2, 3), (2, 4), (3, 4)}
  {
    var h := SharedRootHierarchy();
    assert {2, 3, 4} <= h.classes;
    var ps := NonDisjointPairs(h);
    SharedRootFirsts();
    SharedRootCorrectedTop(2, 3, 4);
    SharedRootCorrectedTop(3, 2, 4);
    SharedRootCorrectedTop(4, 2, 3);
    ReducedToSiblings(h, ps);
  }

  /** Stage 6 when each of 2, 3 and 4 has the other two as its top
      candidates. */
  lemma ReducedToSiblings(h: Hierarchy, ps: set<Pair>)
    requires h.Valid() && PairsWithin(h, ps) && {2, 3, 4} <= h.classes
    requires PairFirsts(ps) == {2, 3, 4}
    requires TopCandidates(h, ps, 2, Corrected) == {3, 4}
    requires TopCandidates(h, ps, 3, Corrected) == {2, 4}
    requires TopCandidates(h, ps, 4, Corrected) == {2, 3}
    ensures ReducedPairs(h, ps, Corrected) == {(2, 3), (2, 4), (3, 4)}
  {
    ReducedWithinSiblings(h, ps);
    ReducedMember(h, ps, Corrected, 2, 3);
    ReducedMember(h, ps, Corrected, 2, 4);
    ReducedMember(h, ps, Corrected, 3, 4);
  }

  /** None of the bogus pairs makes another redundant. */
  lemma SharedRootMinimalAsWritten()
    ensures SharedRootHierarchy().Valid()
    ensures MinimalPairs(SharedRootHierarchy(), {(2, 5), (3, 5), (4, 5)}) == {(2, 5), (3, 5), (4, 5)}
  {
    var h := SharedRootHierarchy();
    var bogus: set<Pair> := {(2, 5), (3, 5), (4, 5)};
    forall p | p in bogus ensures p in MinimalPairs(h, bogus) {
      forall q | q in bogus && q != p ensures !Subsumes(h, p, q) {
      }
    }
  }

  /** None of the genuine pairs makes another redundant. */
  lemma SharedRootMinimalCorrected()
    ensures SharedRootHierarchy().Valid()
    ensures MinimalPairs(SharedRootHierarchy(), {(2, 3), (2, 4), (3, 4)}) == {(2, 3), (2, 4), (3, 4)}
  {
    var h := SharedRootHierarchy();
    var genuine: set<Pair> := {(2, 3), (2, 4), (3, 4)};
    forall p | p in genuine ensures p in MinimalPairs(h, genuine) {
      forall q | q in genuine && q != p ensures !Subsumes(h, p, q) {
      }
    }
  }

  /** Stages 1-7 on the counterexample: as written only the bogus pairs,
      each joining a class with its own superclass, are left for the safety
      filter, and none of the genuine pairs the corrected fallback keeps. */
  lemma AsWrittenReplacesGenuinePairs()
    ensures SharedRootHierarchy().Valid()
    ensures MinimalPairs(SharedRootHierarchy(), ReducedPairs(SharedRootHierarchy(), NonDisjointPairs(SharedRootHierarchy()), AsWritten))
      == {(2, 5), (3, 5), (4, 5)}
    ensures MinimalPairs(SharedRootHierarchy(), ReducedPairs(SharedRootHierarchy(), NonDisjointPairs(SharedRootHierarchy()), Corrected))
      == {(2, 3), (2, 4), (3, 4)}
  {
    SharedRootReducedAsWritten();
    SharedRootReducedCorrected();
    SharedRootMinimalAsWritten();
    SharedRootMinimalCorrected();
  }

  /** Stage 7, as the `when` of the source reads: `q` makes `p` redundant when
      it shares a class with `p` and its other class is a superclass of the
      other class of `p`, the first matching case deciding. */
  predicate Subsumes(h: Hierarchy, p: Pair, q: Pair)
    requires h.Valid() && p.0 in h.classes && p.1 in h.classes
  {
    if p.0 == q.0 then q.1 in h.anc[p.1]
    else if p.0 == q.1 then q.0 in h.anc[p.1]
    else if p.1 == q.0 then q.1 in h.anc[p.0]
    else if p.1 == q.1 then q.0 in h.anc[p.0]
    else false
  }

  /** For two different pairs in class order at most one case of the `when`
      applies, so the order of its branches does not matter. */
  lemma SubsumesIff(h: Hierarchy, p: Pair, q: Pair)
    requires h.Valid() && p.0 in h.classes && p.1 in h.classes
    requires p.0 < p.1 && q.0 < q.1 && p != q
    ensures Subsumes(h, p, q) <==>
      (p.0 == q.0 && q.1 in h.anc[p.1]) || (p.0 == q.1 && q.0 in h.anc[p.1])
      || (p.1 == q.0 && q.1 in h.anc[p.0]) || (p.1 == q.1 && q.0 in h.anc[p.0])
  {
  }

  /** Stage 7: the reduced pairs that no other reduced pair makes redundant. */
  function MinimalPairs(h: Hierarchy, rs: set<Pair>): (ms: set<Pair>)
    requires h.Valid() && PairsWithin(h, rs)
    ensures ms <= rs
  {
    set p | p in rs && forall q :: q in rs && q != p ==> !Subsumes(h, p, q)
  }

  /** Keeping the minimal pairs of the minimal pairs changes nothing. */
  lemma MinimalPairsIdempotent(h: Hierarchy, rs: set<Pair>)
    requires h.Valid() && PairsWithin(h, rs)
    ensures MinimalPairs(h, MinimalPairs(h, rs)) == MinimalPairs(h, rs)
  {
    var ms := MinimalPairs(h, rs);
    forall p | p in ms ensures p in MinimalPairs(h, ms) {
      assert forall q :: q in ms && q != p ==> !Subsumes(h, p, q);
    }
  }

  /** No two kept pairs share a class while the other class of one is a
      superclass of the other class of the other. */
  lemma MinimalPairsAntichain(h: Hierarchy, rs: set<Pair>, p: Pair, q: Pair)
    requires h.Valid() && PairsWithin(h, rs)
    requires forall x :: x in rs ==> x.0 < x.1
    requires p in MinimalPairs(h, rs) && q in MinimalPairs(h, rs) && p != q
    ensures !(p.0 == q.0 && q.1 in h.anc[p.1])
    ensures !(p.0 == q.1 && q.0 in h.anc[p.1])
    ensures !(p.1 == q.0 && q.1 in h.anc[p.0])
    ensures !(p.1 == q.1 && q.0 in h.anc[p.0])
  {
    assert !Subsumes(h, p, q);
    SubsumesIff(h, p, q);
  }

  /** Stages 1-7. */
  function CandidatePairs(axioms: seq<Axiom>, r: Reasoner, fallback: Fallback): set<Pair>
    requires SuperClassesKnown(axioms, r)
  {
    var h := BuildHierarchy(axioms, r);
    BuildHierarchyValid(axioms, r);
    MinimalPairs(h, ReducedPairs(h, NonDisjointPairs(h), fallback))
  }

  /** With the corrected fallback no candidate pair asks a working class to
      be disjoint with one of its superclasses; each pair is in class order. */
  lemma CandidatePairsUnrelated(axioms: seq<Axiom>, r: Reasoner, p: Pair)
    requires SuperClassesKnown(axioms, r)
    requires BuildHierarchy(axioms, r).Valid() && BuildHierarchy(axioms, r).Transitive()
    requires p in CandidatePairs(axioms, r, Corrected)
    ensures p.0 < p.1
    ensures p.0 in NonDefinedClasses(axioms, r) && p.1 in NonDefinedClasses(axioms, r)
    ensures p.0 !in UnsatisfiableSet(axioms, r) && p.1 !in UnsatisfiableSet(axioms, r)
    ensures p.0 !in SuperClassSet(axioms, r, p.1) && p.1 !in SuperClassSet(axioms, r, p.0)
  {
    var h := BuildHierarchy(axioms, r);
    ReducedPairsUnrelated(h, p);
  }
}
