/** Missing-closure heuristic: a class that has an existential restriction
    on a property, but no universal restriction on that property or one of
    its super-properties anywhere on the class or its superclasses, probably
    misses a closure axiom. */
module MissingClosure {
  import opened Wrappers
  import opened Seqs
  import opened Owl
  import opened CommonFunctions

  /** The cast of a subclass to a named class fails: the axiom is a
      SubClassOf with an anonymous subclass and holds an existential
      restriction somewhere. */
  predicate CastFails(ax: Axiom)
  {
    ax.SubClassOf? && !ax.sub.Atomic? && OfKind(NestedInAxiom(ax), SomeKind) != []
  }

  /** `e` is an existential restriction nested in `ax`, a SubClassOf axiom
      whose subclass is `c`. */
  predicate OwnRestriction(ax: Axiom, c: ClassId, e: ClassExpr)
  {
    ax.SubClassOf? && ax.sub == Atomic(c) && e in NestedInAxiom(ax) && e.SomeValuesFrom?
  }

  /** `e` is an existential restriction nested in a SubClassOf axiom of the
      ontology whose subclass is `c`. */
  ghost predicate SubclassRestriction(axioms: seq<Axiom>, c: ClassId, e: ClassExpr)
  {
    exists ax :: ax in axioms && OwnRestriction(ax, c, e)
  }

  /** Every second component is an existential restriction. */
  predicate AllSomeValuesFrom(pairs: seq<(ClassId, ClassExpr)>)
  {
    forall i :: 0 <= i < |pairs| ==> pairs[i].1.SomeValuesFrom?
  }

  /** The first stage: every SubClassOf axiom contributes its subclass paired
      with each existential restriction nested in it, once per axiom, in
      axiom order; `None` when a subclass cast fails. */
  function SomeValuesFromBySubclass(axioms: seq<Axiom>): (r: Option<seq<(ClassId, ClassExpr)>>)
    ensures r.Some? ==> AllSomeValuesFrom(r.value)
    decreases |axioms|
  {
    if axioms == [] then Some([])
    else
      var rest := SomeValuesFromBySubclass(axioms[1..]);
      var ax := axioms[0];
      if !ax.SubClassOf? then rest
      else
        var svfs := OfKind(NestedInAxiom(ax), SomeKind);
        if svfs == [] then rest
        else if !ax.sub.Atomic? || rest.None? then None
        else
          var own := Distinct(PairWith(ax.sub.cls, svfs));
          OwnPairsAreSomeValuesFrom(ax.sub.cls, svfs);
          AllSomeValuesFromConcat(own, rest.value);
          Some(own + rest.value)
  }

  lemma OwnPairsAreSomeValuesFrom(c: ClassId, svfs: seq<ClassExpr>)
    requires forall e :: e in svfs ==> KindOf(e) == SomeKind
    ensures AllSomeValuesFrom(Distinct(PairWith(c, svfs)))
  {
    var pw := PairWith(c, svfs);
    forall x | x in pw ensures x.1.SomeValuesFrom? {
      assert KindOf(x.1) == SomeKind;
    }
    var own := Distinct(pw);
    forall i | 0 <= i < |own| ensures own[i].1.SomeValuesFrom? {
      assert own[i] in own;
    }
  }

  lemma AllSomeValuesFromConcat(a: seq<(ClassId, ClassExpr)>, b: seq<(ClassId, ClassExpr)>)
    requires AllSomeValuesFrom(a) && AllSomeValuesFrom(b)
    ensures AllSomeValuesFrom(a + b)
  {
    forall i | 0 <= i < |a + b| ensures (a + b)[i].1.SomeValuesFrom? {
      if i >= |a| {
        assert (a + b)[i] == b[i - |a|];
      }
    }
  }

  lemma ConsMembers(axioms: seq<Axiom>)
    requires axioms != []
    ensures forall ax :: ax in axioms <==> ax == axioms[0] || ax in axioms[1..]
  {
  }

  /** The first stage fails exactly when the cast fails for some axiom. */
  lemma {:induction false} SomeValuesFromBySubclassFails(axioms: seq<Axiom>)
    ensures SomeValuesFromBySubclass(axioms).None? <==> exists ax :: ax in axioms && CastFails(ax)
    decreases |axioms|
  {
    if axioms != [] {
      var ax := axioms[0];
      var rest := axioms[1..];
      SomeValuesFromBySubclassFails(rest);
      ConsMembers(axioms);
      assert (exists a :: a in axioms && CastFails(a)) <==> CastFails(ax) || exists a :: a in rest && CastFails(a);
      if !ax.SubClassOf? || OfKind(NestedInAxiom(ax), SomeKind) == [] {
        assert SomeValuesFromBySubclass(axioms) == SomeValuesFromBySubclass(rest);
      } else if !ax.sub.Atomic? {
        assert CastFails(ax);
      } else {
        assert SomeValuesFromBySubclass(axioms).None? <==> SomeValuesFromBySubclass(rest).None?;
      }
    }
  }

  /** One step of the first stage: the pairs of the first axiom come before
      those of the rest. */
  lemma SomeValuesFromBySubclassStep(axioms: seq<Axiom>, c: ClassId, e: ClassExpr)
    requires axioms != [] && SomeValuesFromBySubclass(axioms).Some?
    ensures SomeValuesFromBySubclass(axioms[1..]).Some?
    ensures (c, e) in SomeValuesFromBySubclass(axioms).value <==>
      OwnRestriction(axioms[0], c, e) || (c, e) in SomeValuesFromBySubclass(axioms[1..]).value
  {
    var ax := axioms[0];
    var rest := SomeValuesFromBySubclass(axioms[1..]);
    if ax.SubClassOf? {
      var svfs := OfKind(NestedInAxiom(ax), SomeKind);
      assert OwnRestriction(ax, c, e) <==> ax.sub == Atomic(c) && e in svfs;
      if svfs != [] {
        var pw := PairWith(ax.sub.cls, svfs);
        assert SomeValuesFromBySubclass(axioms) == Some(Distinct(pw) + rest.value);
        assert (c, e) in Distinct(pw) <==> (c, e) in pw;
      }
    }
  }

  /** When it succeeds, the first stage holds exactly the subclass
      restrictions of the ontology, each paired with its subclass. */
  lemma {:induction false} SomeValuesFromBySubclassMembers(axioms: seq<Axiom>, c: ClassId, e: ClassExpr)
    requires SomeValuesFromBySubclass(axioms).Some?
    ensures (c, e) in SomeValuesFromBySubclass(axioms).value <==> SubclassRestriction(axioms, c, e)
    decreases |axioms|
  {
    if axioms != [] {
      var rest := axioms[1..];
      ConsMembers(axioms);
      assert SubclassRestriction(axioms, c, e) <==> OwnRestriction(axioms[0], c, e) || SubclassRestriction(rest, c, e);
      SomeValuesFromBySubclassStep(axioms, c, e);
      SomeValuesFromBySubclassMembers(rest, c, e);
    }
  }

  /** Both together. */
  lemma SomeValuesFromBySubclassSpec(axioms: seq<Axiom>)
    ensures SomeValuesFromBySubclass(axioms).None? <==> exists ax :: ax in axioms && CastFails(ax)
    ensures SomeValuesFromBySubclass(axioms).Some? ==>
      forall c: ClassId, e :: (c, e) in SomeValuesFromBySubclass(axioms).value <==> SubclassRestriction(axioms, c, e)
  {
    SomeValuesFromBySubclassFails(axioms);
    if SomeValuesFromBySubclass(axioms).Some? {
      forall c: ClassId, e {
        SomeValuesFromBySubclassMembers(axioms, c, e);
      }
    }
  }

  /** `groupBy { (class, restriction) -> class to restriction.property }`,
      with the restrictions of each group in order. */
  datatype Group = Group(cls: ClassId, prop: PropId, restrictions: seq<ClassExpr>)

  /** The grouping key of every pair, in order. */
  function KeyList(pairs: seq<(ClassId, ClassExpr)>): (keys: seq<(ClassId, PropId)>)
    requires AllSomeValuesFrom(pairs)
    ensures |keys| == |pairs|
    ensures forall i :: 0 <= i < |pairs| ==> keys[i] == (pairs[i].0, pairs[i].1.prop)
  {
    if pairs == [] then [] else [(pairs[0].0, pairs[0].1.prop)] + KeyList(pairs[1..])
  }

  predicate InGroup(p: (ClassId, ClassExpr), key: (ClassId, PropId))
  {
    p.1.SomeValuesFrom? && p.0 == key.0 && p.1.prop == key.1
  }

  /** The restrictions of the pairs with the given key, in order. */
  function GroupRestrictions(pairs: seq<(ClassId, ClassExpr)>, key: (ClassId, PropId)): (rs: seq<ClassExpr>)
    ensures forall e :: e in rs <==> (key.0, e) in pairs && e.SomeValuesFrom? && e.prop == key.1
  {
    var members := Filter(pairs, p => InGroup(p, key));
    var rs := MapSeq(members, (p: (ClassId, ClassExpr)) => p.1);
    assert forall e :: (key.0, e) in pairs && e.SomeValuesFrom? && e.prop == key.1 ==> (key.0, e) in members;
    rs
  }

  /** Kotlin `groupBy`: one group per key, keys in order of first occurrence,
      each group holding the restrictions of its pairs in order. */
  function GroupByClassAndProperty(pairs: seq<(ClassId, ClassExpr)>): (groups: seq<Group>)
    requires AllSomeValuesFrom(pairs)
    ensures forall i, j :: 0 <= i < j < |groups| ==> (groups[i].cls, groups[i].prop) != (groups[j].cls, groups[j].prop)
    ensures forall g :: g in groups ==> g.restrictions != []
    ensures forall g, e :: g in groups ==>
      (e in g.restrictions <==> (g.cls, e) in pairs && e.SomeValuesFrom? && e.prop == g.prop)
    ensures forall c, e :: (c, e) in pairs ==> exists g :: g in groups && g.cls == c && g.prop == e.prop
    ensures forall i, j, k :: 0 <= i < j < |groups| && 0 <= k < |pairs| && InGroup(pairs[k], (groups[j].cls, groups[j].prop)) ==>
      exists l :: 0 <= l < k && InGroup(pairs[l], (groups[i].cls, groups[i].prop))
  {
    var keys := Distinct(KeyList(pairs));
    var groups := MapSeq(keys, (k: (ClassId, PropId)) => Group(k.0, k.1, GroupRestrictions(pairs, k)));
    GroupsSpec(pairs, keys, groups);
    GroupsOrdered(pairs, keys, groups);
    groups
  }

  lemma GroupsSpec(pairs: seq<(ClassId, ClassExpr)>, keys: seq<(ClassId, PropId)>, groups: seq<Group>)
    requires AllSomeValuesFrom(pairs)
    requires keys == Distinct(KeyList(pairs))
    requires |groups| == |keys|
    requires forall i :: 0 <= i < |keys| ==> groups[i] == Group(keys[i].0, keys[i].1, GroupRestrictions(pairs, keys[i]))
    ensures forall i, j :: 0 <= i < j < |groups| ==> (groups[i].cls, groups[i].prop) != (groups[j].cls, groups[j].prop)
    ensures forall g :: g in groups ==> g.restrictions != []
    ensures forall g, e :: g in groups ==>
      (e in g.restrictions <==> (g.cls, e) in pairs && e.SomeValuesFrom? && e.prop == g.prop)
    ensures forall c, e :: (c, e) in pairs ==> exists g :: g in groups && g.cls == c && g.prop == e.prop
  {
    forall i, j | 0 <= i < j < |groups| ensures (groups[i].cls, groups[i].prop) != (groups[j].cls, groups[j].prop) {
      assert (groups[i].cls, groups[i].prop) == keys[i];
      assert (groups[j].cls, groups[j].prop) == keys[j];
    }
    forall g | g in groups ensures g.restrictions != [] {
      var i :| 0 <= i < |groups| && groups[i] == g;
      GroupNonEmpty(pairs, keys, groups, i);
    }
    forall g, e | g in groups
      ensures e in g.restrictions <==> (g.cls, e) in pairs && e.SomeValuesFrom? && e.prop == g.prop
    {
      var i :| 0 <= i < |groups| && groups[i] == g;
    }
    forall c, e | (c, e) in pairs ensures exists g :: g in groups && g.cls == c && g.prop == e.prop {
      GroupCovers(pairs, keys, groups, c, e);
    }
  }

  /** The groups come in the order their keys first occur. */
  lemma GroupsOrdered(pairs: seq<(ClassId, ClassExpr)>, keys: seq<(ClassId, PropId)>, groups: seq<Group>)
    requires AllSomeValuesFrom(pairs)
    requires keys == Distinct(KeyList(pairs))
    requires |groups| == |keys|
    requires forall i :: 0 <= i < |keys| ==> groups[i] == Group(keys[i].0, keys[i].1, GroupRestrictions(pairs, keys[i]))
    ensures forall i, j, k :: 0 <= i < j < |groups| && 0 <= k < |pairs| && InGroup(pairs[k], (groups[j].cls, groups[j].prop)) ==>
      exists l :: 0 <= l < k && InGroup(pairs[l], (groups[i].cls, groups[i].prop))
  {
    forall i, j, k | 0 <= i < j < |groups| && 0 <= k < |pairs| && InGroup(pairs[k], (groups[j].cls, groups[j].prop))
      ensures exists l :: 0 <= l < k && InGroup(pairs[l], (groups[i].cls, groups[i].prop))
    {
      assert (groups[i].cls, groups[i].prop) == keys[i];
      assert (groups[j].cls, groups[j].prop) == keys[j];
      KeyOrder(pairs, keys, i, j, k);
    }
  }

  /** The keys come in the order they first occur: a pair with a later key
      is preceded by a pair with every earlier key. */
  lemma KeyOrder(pairs: seq<(ClassId, ClassExpr)>, keys: seq<(ClassId, PropId)>, i: int, j: int, k: int)
    requires AllSomeValuesFrom(pairs)
    requires keys == Distinct(KeyList(pairs))
    requires 0 <= i < j < |keys| && 0 <= k < |pairs| && InGroup(pairs[k], keys[j])
    ensures exists l :: 0 <= l < k && InGroup(pairs[l], keys[i])
  {
    var kl := KeyList(pairs);
    assert kl[k] == keys[j];
    DistinctFirstOccurrence(kl, i, j, k);
    assert keys[i] in kl[..k];
    var l :| 0 <= l < k && kl[l] == keys[i];
    assert InGroup(pairs[l], keys[i]);
  }

  lemma GroupNonEmpty(pairs: seq<(ClassId, ClassExpr)>, keys: seq<(ClassId, PropId)>, groups: seq<Group>, i: int)
    requires AllSomeValuesFrom(pairs)
    requires keys == Distinct(KeyList(pairs))
    requires |groups| == |keys| && 0 <= i < |keys|
    requires groups[i] == Group(keys[i].0, keys[i].1, GroupRestrictions(pairs, keys[i]))
    ensures groups[i].restrictions != []
  {
    var kl := KeyList(pairs);
    assert keys[i] in kl;
    var k :| 0 <= k < |pairs| && kl[k] == keys[i];
    assert pairs[k] in pairs;
    assert pairs[k] == (keys[i].0, pairs[k].1);
    assert pairs[k].1 in groups[i].restrictions;
  }

  lemma GroupCovers(pairs: seq<(ClassId, ClassExpr)>, keys: seq<(ClassId, PropId)>, groups: seq<Group>, c: ClassId, e: ClassExpr)
    requires AllSomeValuesFrom(pairs)
    requires keys == Distinct(KeyList(pairs))
    requires |groups| == |keys|
    requires forall i :: 0 <= i < |keys| ==> groups[i] == Group(keys[i].0, keys[i].1, GroupRestrictions(pairs, keys[i]))
    requires (c, e) in pairs
    ensures exists g :: g in groups && g.cls == c && g.prop == e.prop
  {
    var kl := KeyList(pairs);
    var k :| 0 <= k < |pairs| && pairs[k] == (c, e);
    assert kl[k] in keys;
    var i :| 0 <= i < |keys| && keys[i] == kl[k];
    assert groups[i] in groups;
  }

  /** The class is not fully defined and is satisfiable. */
  predicate Considered(axioms: seq<Axiom>, r: Reasoner, c: ClassId)
  {
    !IsEquivalentClass(axioms, c) && r.isSatisfiable(Atomic(c))
  }

  /** The property and its inferred super-properties. */
  function ClosureProperties(r: Reasoner, p: PropId): seq<PropId>
  {
    r.superObjectProperties(p) + [p]
  }

  /** A universal restriction on `p` or a super-property of it is nested in
      an axiom describing `c` or one of its superclasses. */
  predicate IsClosed(axioms: seq<Axiom>, r: Reasoner, c: ClassId, p: PropId)
  {
    exists a :: a in RestrictionsOnClassOrSupers(axioms, r, c, AllKind) && a.AllValuesFrom? && a.prop in ClosureProperties(r, p)
  }

  /** The filler is one of the direct range classes of `p`, or one of them is
      among its inferred superclasses. */
  predicate FillerWithinRange(r: Reasoner, p: PropId, filler: ClassExpr)
  {
    (filler.Atomic? && filler.cls in r.objectPropertyRanges(p))
    || exists rc :: rc in r.objectPropertyRanges(p) && rc in r.superClasses(filler)
  }

  /** A functional property whose every existential filler lies within its
      range needs no closure. */
  predicate IsRangeExempt(axioms: seq<Axiom>, r: Reasoner, g: Group)
  {
    IsFunctional(axioms, g.prop)
    && forall e :: e in g.restrictions && e.SomeValuesFrom? ==> FillerWithinRange(r, g.prop, e.filler)
  }

  predicate Reported(axioms: seq<Axiom>, r: Reasoner, g: Group)
  {
    Considered(axioms, r, g.cls) && !IsClosed(axioms, r, g.cls, g.prop) && !IsRangeExempt(axioms, r, g)
  }

  /** The classes reported, once per (class, property) group, in group order;
      `None` when a subclass cast fails. */
  function MissingClosureClasses(axioms: seq<Axiom>, r: Reasoner): Option<seq<ClassId>>
  {
    match SomeValuesFromBySubclass(axioms)
    case None => None
    case Some(pairs) =>
      Some(MapSeq(Filter(GroupByClassAndProperty(pairs), g => Reported(axioms, r, g)), (g: Group) => g.cls))
  }

  /** `findCandidates`: one single-class candidate per reported group, in
      group order. */
  function FindCandidates(axioms: seq<Axiom>, r: Reasoner): (candidates: Option<seq<seq<ClassId>>>)
    ensures candidates.None? <==> MissingClosureClasses(axioms, r).None?
    ensures candidates.Some? ==> |candidates.value| == |MissingClosureClasses(axioms, r).value|
    ensures candidates.Some? ==>
      forall i :: 0 <= i < |candidates.value| ==> candidates.value[i] == [MissingClosureClasses(axioms, r).value[i]]
    ensures candidates.Some? ==> forall cand :: cand in candidates.value ==>
      |cand| == 1 && cand[0] in MissingClosureClasses(axioms, r).value
  {
    var cs := MissingClosureClasses(axioms, r);
    if cs.None? then None else Some(AsCandidates(cs.value))
  }

  /** The same exemption, stated on the ontology rather than on a group. */
  ghost predicate RangeExemptOn(axioms: seq<Axiom>, r: Reasoner, c: ClassId, p: PropId)
  {
    IsFunctional(axioms, p)
    && forall e :: SubclassRestriction(axioms, c, e) && e.SomeValuesFrom? && e.prop == p ==> FillerWithinRange(r, p, e.filler)
  }

  /** Reference definition: `c` misses a closure on `p` when it is a
      considered class with an existential restriction on `p` in one of its
      SubClassOf axioms, no universal restriction closes `p`, and `p` is not
      exempt. */
  ghost predicate MissesClosure(axioms: seq<Axiom>, r: Reasoner, c: ClassId, p: PropId)
  {
    Considered(axioms, r, c)
    && (exists e :: SubclassRestriction(axioms, c, e) && e.SomeValuesFrom? && e.prop == p)
    && !IsClosed(axioms, r, c, p)
    && !RangeExemptOn(axioms, r, c, p)
  }

  /** A group is exempt exactly when its class and property are. */
  lemma GroupExemptIff(axioms: seq<Axiom>, r: Reasoner, pairs: seq<(ClassId, ClassExpr)>, g: Group)
    requires SomeValuesFromBySubclass(axioms) == Some(pairs)
    requires g in GroupByClassAndProperty(pairs)
    ensures forall e :: e in g.restrictions <==> SubclassRestriction(axioms, g.cls, e) && e.SomeValuesFrom? && e.prop == g.prop
    ensures IsRangeExempt(axioms, r, g) <==> RangeExemptOn(axioms, r, g.cls, g.prop)
  {
    SomeValuesFromBySubclassSpec(axioms);
  }

  lemma ReportedGroupMissesClosure(axioms: seq<Axiom>, r: Reasoner, pairs: seq<(ClassId, ClassExpr)>, g: Group)
    requires SomeValuesFromBySubclass(axioms) == Some(pairs)
    requires g in GroupByClassAndProperty(pairs)
    requires Reported(axioms, r, g)
    ensures MissesClosure(axioms, r, g.cls, g.prop)
  {
    GroupExemptIff(axioms, r, pairs, g);
    var e :| e in g.restrictions;
  }

  lemma MissingClosureHasReportedGroup(axioms: seq<Axiom>, r: Reasoner, pairs: seq<(ClassId, ClassExpr)>, c: ClassId, p: PropId)
    requires SomeValuesFromBySubclass(axioms) == Some(pairs)
    requires MissesClosure(axioms, r, c, p)
    ensures exists g :: g in GroupByClassAndProperty(pairs) && g.cls == c && Reported(axioms, r, g)
  {
    var e :| SubclassRestriction(axioms, c, e) && e.SomeValuesFrom? && e.prop == p;
    SomeValuesFromBySubclassMembers(axioms, c, e);
    var groups := GroupByClassAndProperty(pairs);
    assert exists g :: g in groups && g.cls == c && g.prop == e.prop;
    var g :| g in groups && g.cls == c && g.prop == p;
    GroupExemptIff(axioms, r, pairs, g);
    assert Reported(axioms, r, g);
  }

  /** A class is reported exactly when it misses a closure on some property. */
  lemma ReportedIff(axioms: seq<Axiom>, r: Reasoner, pairs: seq<(ClassId, ClassExpr)>, c: ClassId)
    requires SomeValuesFromBySubclass(axioms) == Some(pairs)
    ensures c in MissingClosureClasses(axioms, r).value <==> exists p :: MissesClosure(axioms, r, c, p)
  {
    var groups := GroupByClassAndProperty(pairs);
    var kept := Filter(groups, g => Reported(axioms, r, g));
    assert MissingClosureClasses(axioms, r).value == MapSeq(kept, (g: Group) => g.cls);
    if c in MissingClosureClasses(axioms, r).value {
      var g :| g in kept && g.cls == c;
      ReportedGroupMissesClosure(axioms, r, pairs, g);
    }
    if exists p :: MissesClosure(axioms, r, c, p) {
      var p :| MissesClosure(axioms, r, c, p);
      MissingClosureHasReportedGroup(axioms, r, pairs, c, p);
      var g :| g in groups && g.cls == c && Reported(axioms, r, g);
      assert g in kept;
    }
  }

  /** The heuristic fails exactly when a subclass cast fails; otherwise it
      reports a class exactly when the class misses a closure on some
      property. */
  lemma MissingClosureClassesSpec(axioms: seq<Axiom>, r: Reasoner)
    ensures MissingClosureClasses(axioms, r).None? <==> exists ax :: ax in axioms && CastFails(ax)
    ensures MissingClosureClasses(axioms, r).Some? ==>
      forall c :: c in MissingClosureClasses(axioms, r).value <==> exists p :: MissesClosure(axioms, r, c, p)
  {
    SomeValuesFromBySubclassFails(axioms);
    if MissingClosureClasses(axioms, r).Some? {
      var pairs := SomeValuesFromBySubclass(axioms).value;
      forall c ensures c in MissingClosureClasses(axioms, r).value <==> exists p :: MissesClosure(axioms, r, c, p) {
        ReportedIff(axioms, r, pairs, c);
      }
    }
  }

  /** Fully defined and unsatisfiable classes are never reported. */
  lemma ReportedAreConsidered(axioms: seq<Axiom>, r: Reasoner, c: ClassId)
    requires MissingClosureClasses(axioms, r).Some?
    requires c in MissingClosureClasses(axioms, r).value
    ensures !IsEquivalentClass(axioms, c)
    ensures r.isSatisfiable(Atomic(c))
  {
    MissingClosureClassesSpec(axioms, r);
  }

  /** Adding the closure axiom `c SubClassOf (p only filler)` closes `p` on
      `c`, so that (class, property) group is no longer reported. */
  lemma ClosureAxiomCloses(axioms: seq<Axiom>, r: Reasoner, c: ClassId, p: PropId, filler: ClassExpr)
    ensures IsClosed(axioms + [SubClassOf(Atomic(c), AllValuesFrom(p, filler))], r, c, p)
  {
    var closure := AllValuesFrom(p, filler);
    var ax := SubClassOf(Atomic(c), closure);
    var extended := axioms + [ax];
    assert closure in Nested(closure);
    assert closure in NestedInAxiom(ax);
    assert ax in extended && Describes(ax, c);
    assert c in [c] + r.superClasses(Atomic(c));
    assert closure in RestrictionsOnClassOrSupers(extended, r, c, AllKind);
    assert p in ClosureProperties(r, p);
  }
}
