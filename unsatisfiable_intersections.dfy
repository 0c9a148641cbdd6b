/** Unsatisfiable-intersections heuristic: an unsatisfiable class is flagged
    when the justification the explanation generator gives for it contains
    an intersection that is unsatisfiable on its own. */
module UnsatisfiableIntersections {
  import opened Seqs
  import opened Owl

  /** Every expression nested in some member of `s`. */
  function NestedAll(s: set<ClassExpr>): set<ClassExpr>
  {
    set e, x | e in s && x in Nested(e) :: x
  }

  /** The members of `s` whose expression type is `k`. */
  function OfKindIn(s: set<ClassExpr>, k: ExprKind): set<ClassExpr>
  {
    set e | e in s && KindOf(e) == k
  }

  lemma InNestedAll(s: set<ClassExpr>, e: ClassExpr, x: ClassExpr)
    requires e in s && x in Nested(e)
    ensures x in NestedAll(s)
  {
  }

  lemma NestedAllCovers(s: set<ClassExpr>)
    ensures s <= NestedAll(s)
  {
    forall e | e in s ensures e in NestedAll(s) {
      InNestedAll(s, e, e);
    }
  }

  lemma NestedAllMonotone(a: set<ClassExpr>, b: set<ClassExpr>)
    requires a <= b
    ensures NestedAll(a) <= NestedAll(b)
  {
    forall x | x in NestedAll(a) ensures x in NestedAll(b) {
      var e :| e in a && x in Nested(e);
      InNestedAll(b, e, x);
    }
  }

  /** Expanding twice finds nothing new. */
  lemma NestedAllClosed(s: set<ClassExpr>)
    ensures NestedAll(NestedAll(s)) == NestedAll(s)
  {
    NestedAllCovers(NestedAll(s));
    forall x | x in NestedAll(NestedAll(s)) ensures x in NestedAll(s) {
      var f :| f in NestedAll(s) && x in Nested(f);
      var e :| e in s && f in Nested(e);
      NestedTransitive(e, f, x);
      InNestedAll(s, e, x);
    }
  }

  /** A frontier inside the closure of `s` expands to no more than it. */
  lemma NestedAllStep(s: set<ClassExpr>, frontier: set<ClassExpr>)
    requires frontier <= NestedAll(s)
    ensures NestedAll(frontier) - frontier <= NestedAll(s)
  {
    NestedAllMonotone(frontier, NestedAll(s));
    NestedAllClosed(s);
  }

  lemma OfKindInUnion(a: set<ClassExpr>, b: set<ClassExpr>, k: ExprKind)
    ensures OfKindIn(a, k) + OfKindIn(b, k) == OfKindIn(a + b, k)
  {
  }

  /** Every expression nested in a frontier member, other than the member
      itself, is strictly smaller than it. */
  lemma NextIsSmaller(frontier: set<ClassExpr>, bound: int)
    requires forall e :: e in frontier ==> Size(e) < bound
    ensures forall x :: x in NestedAll(frontier) - frontier ==> Size(x) < bound - 1
  {
    forall x | x in NestedAll(frontier) - frontier ensures Size(x) < bound - 1 {
      var f :| f in frontier && x in Nested(f);
      NestedIsSmaller(f, x);
    }
  }

  ghost function MaxSize(s: set<ClassExpr>): (m: nat)
    ensures forall e :: e in s ==> Size(e) <= m
    decreases s
  {
    if s == {} then 0
    else
      var e :| e in s;
      var rest := MaxSize(s - {e});
      if Size(e) > rest then Size(e) else rest
  }

  /** Where the walk stands after `round` rounds (counted up to 2): first the
      input itself, then the expressions nested in it but not in it, from
      then on some part of the closure, with the accumulator holding every
      member of the requested type seen so far. */
  ghost predicate Walked(expressions: set<ClassExpr>, kind: ExprKind, accumulator: set<ClassExpr>,
                         round: nat, frontier: set<ClassExpr>, result: set<ClassExpr>)
  {
    && round <= 2
    && (round == 0 ==> frontier == expressions && result == accumulator)
    && (round == 1 ==> frontier == NestedAll(expressions) - expressions
                       && result == accumulator + OfKindIn(expressions, kind))
    && (round == 2 ==> frontier <= NestedAll(expressions)
                       && result == accumulator + OfKindIn(NestedAll(expressions), kind))
  }

  lemma WalkedStep(expressions: set<ClassExpr>, kind: ExprKind, accumulator: set<ClassExpr>,
                   round: nat, frontier: set<ClassExpr>, result: set<ClassExpr>)
    requires Walked(expressions, kind, accumulator, round, frontier, result)
    ensures Walked(expressions, kind, accumulator, if round < 2 then round + 1 else 2,
                   NestedAll(frontier) - frontier, result + OfKindIn(frontier, kind))
  {
    var closure := NestedAll(expressions);
    NestedAllCovers(expressions);
    if round == 1 {
      assert expressions + frontier == closure;
      OfKindInUnion(expressions, frontier, kind);
    } else if round == 2 {
      OfKindInUnion(closure, frontier, kind);
      assert closure + frontier == closure;
    }
    if round != 0 {
      NestedAllStep(expressions, frontier);
    }
  }

  lemma WalkedDone(expressions: set<ClassExpr>, kind: ExprKind, accumulator: set<ClassExpr>,
                   round: nat, result: set<ClassExpr>)
    requires Walked(expressions, kind, accumulator, round, {}, result)
    ensures result == accumulator + OfKindIn(NestedAll(expressions), kind)
  {
    var closure := NestedAll(expressions);
    NestedAllCovers(expressions);
    if round == 0 {
      assert closure == {};
    } else if round == 1 {
      assert closure == expressions;
    }
  }

  /** `extractClassExpressionsOfType`: walks the frontier `expressions`,
      adds the members of type `kind` to the accumulator, and continues
      with the nested expressions not in the frontier, until the frontier
      is empty. Every frontier member is a strict sub-expression of a member
      of the previous frontier, so the largest member shrinks each round. */
  method ExtractClassExpressionsOfType(expressions: set<ClassExpr>, kind: ExprKind, accumulator: set<ClassExpr>)
    returns (result: set<ClassExpr>)
    ensures result == accumulator + OfKindIn(NestedAll(expressions), kind)
    ensures expressions == {} ==> result == accumulator
    ensures accumulator <= result
    ensures forall e :: e in result && e !in accumulator ==> KindOf(e) == kind
  {
    var frontier := expressions;
    result := accumulator;
    ghost var round: nat := 0;
    ghost var bound := MaxSize(expressions) + 1;
    while frontier != {}
      invariant forall e :: e in frontier ==> Size(e) < bound
      invariant Walked(expressions, kind, accumulator, round, frontier, result)
      decreases bound
    {
      WalkedStep(expressions, kind, accumulator, round, frontier, result);
      NextIsSmaller(frontier, bound);
      result := result + OfKindIn(frontier, kind);
      frontier := NestedAll(frontier) - frontier;
      bound := bound - 1;
      round := if round < 2 then round + 1 else 2;
    }
    WalkedDone(expressions, kind, accumulator, round, result);
    if expressions == {} {
      assert NestedAll(expressions) == {};
    }
  }

  /** The top-level class expressions of the axioms of the justification of `c`. */
  function ExplanationComponents(r: Reasoner, c: ClassId): set<ClassExpr>
  {
    set ax, top | ax in r.explanation(c) && top in Components(ax) :: top
  }

  /** The class expressions nested in the axioms of the justification of `c`:
      the frontier the walk starts from. */
  function ExplanationExpressions(r: Reasoner, c: ClassId): set<ClassExpr>
  {
    NestedAll(ExplanationComponents(r, c))
  }

  /** What `extractClassExpressionsOfType(..., OBJECT_INTERSECTION_OF, {})`
      returns for the justification of `c`. */
  function IntersectionsInExplanation(r: Reasoner, c: ClassId): set<ClassExpr>
  {
    OfKindIn(NestedAll(ExplanationExpressions(r, c)), IntersectionKind)
  }

  predicate HasUnsatisfiableIntersection(r: Reasoner, c: ClassId)
  {
    exists e :: e in IntersectionsInExplanation(r, c) && !r.isSatisfiable(e)
  }

  /** The unsatisfiable classes, Nothing left out, that are flagged, in the
      order the reasoner lists them (the two `filter` steps of the source in one). */
  function FlaggedClasses(axioms: seq<Axiom>, r: Reasoner): seq<ClassId>
  {
    Filter(r.unsatisfiableClasses(Elems(axioms)), c => c != Nothing && HasUnsatisfiableIntersection(r, c))
  }

  /** `findCandidates`: one single-class candidate per flagged class, in
      order; Nothing is never one, and every one is reported unsatisfiable. */
  function FindCandidates(axioms: seq<Axiom>, r: Reasoner): (candidates: seq<seq<ClassId>>)
    ensures |candidates| == |FlaggedClasses(axioms, r)|
    ensures forall i :: 0 <= i < |candidates| ==>
      candidates[i] == [FlaggedClasses(axioms, r)[i]] && candidates[i][0] != Nothing
      && candidates[i][0] in r.unsatisfiableClasses(Elems(axioms))
  {
    var flagged := FlaggedClasses(axioms, r);
    assert forall i :: 0 <= i < |flagged| ==> flagged[i] in flagged;
    AsCandidates(flagged)
  }

  /** `e` is an unsatisfiable intersection nested in `top`, a class
      expression of `ax`, an axiom of the justification of `c`. */
  predicate IntersectionWitness(r: Reasoner, c: ClassId, ax: Axiom, top: ClassExpr, e: ClassExpr)
  {
    ax in r.explanation(c) && top in Components(ax) && e in Nested(top) && e.IntersectionOf? && !r.isSatisfiable(e)
  }

  lemma FromWitness(r: Reasoner, c: ClassId, ax: Axiom, top: ClassExpr, e: ClassExpr)
    requires IntersectionWitness(r, c, ax, top, e)
    ensures HasUnsatisfiableIntersection(r, c)
  {
    var comps := ExplanationComponents(r, c);
    assert top in comps;
    InNestedAll(comps, top, e);
    NestedAllCovers(NestedAll(comps));
    assert e in IntersectionsInExplanation(r, c);
  }

  lemma ToWitness(r: Reasoner, c: ClassId)
    requires HasUnsatisfiableIntersection(r, c)
    ensures exists ax, top, e :: IntersectionWitness(r, c, ax, top, e)
  {
    var comps := ExplanationComponents(r, c);
    var e :| e in IntersectionsInExplanation(r, c) && !r.isSatisfiable(e);
    assert KindOf(e) == IntersectionKind;
    assert e.IntersectionOf?;
    assert e in NestedAll(NestedAll(comps));
    NestedAllClosed(comps);
    assert e in NestedAll(comps);
    var top :| top in comps && e in Nested(top);
    var ax :| ax in r.explanation(c) && top in Components(ax);
    assert IntersectionWitness(r, c, ax, top, e);
  }

  /** A class has an unsatisfiable intersection in its justification exactly
      when some intersection nested in one of the justification's axioms is
      unsatisfiable: walking the nested expressions again finds nothing new. */
  lemma HasUnsatisfiableIntersectionIff(r: Reasoner, c: ClassId)
    ensures HasUnsatisfiableIntersection(r, c) <==> exists ax, top, e :: IntersectionWitness(r, c, ax, top, e)
  {
    if HasUnsatisfiableIntersection(r, c) {
      ToWitness(r, c);
    }
    if exists ax, top, e :: IntersectionWitness(r, c, ax, top, e) {
      var ax, top, e :| IntersectionWitness(r, c, ax, top, e);
      FromWitness(r, c, ax, top, e);
    }
  }

  /** A class is flagged exactly when it is reported unsatisfiable, is not
      Nothing, and some intersection nested in an axiom of its justification
      is unsatisfiable; the flagged classes keep the reasoner's order. */
  lemma FlaggedClassesSpec(axioms: seq<Axiom>, r: Reasoner)
    ensures forall c :: c in FlaggedClasses(axioms, r) <==>
      c in r.unsatisfiableClasses(Elems(axioms)) && c != Nothing &&
      exists ax, top, e :: IntersectionWitness(r, c, ax, top, e)
    ensures IsSubsequence(FlaggedClasses(axioms, r), r.unsatisfiableClasses(Elems(axioms)))
  {
    forall c {
      HasUnsatisfiableIntersectionIff(r, c);
    }
    FilterIsSubsequence(r.unsatisfiableClasses(Elems(axioms)), c => c != Nothing && HasUnsatisfiableIntersection(r, c));
  }
}
