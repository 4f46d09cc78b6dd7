/** Structural subtyping over types with unions (src/language/predicates.ts). */
module Predicates {
  import opened Ast

  /** `typeof s === "string"`. */
  predicate IsIdent(s: SExpr) { s.Ident? }

  /** An object with a `name` field. */
  predicate IsTypedVar(s: SExpr) { s.TypedVar? }

  predicate IsIdentOrTypedVar(s: SExpr) { IsIdent(s) || IsTypedVar(s) }

  /** `typeSubsetOf(a, b)`: a union is a subset when all its members are, anything is a subset
      of a union when it is a subset of one member, and otherwise the two must be equal. */
  predicate TypeSubsetOf(a: Type, b: Type)
    decreases a, b
  {
    if a.Union? then forall x :: x in a.members ==> TypeSubsetOf(x, b)
    else if b.Union? then exists y :: y in b.members && TypeSubsetOf(a, y)
    else a == b
  }

  predicate TypeEquivalent(a: Type, b: Type)
  {
    TypeSubsetOf(a, b) && TypeSubsetOf(b, a)
  }

  /** The non-union types a type stands for: a union is replaced by its members, recursively. */
  function Flat(t: Type): (r: seq<Type>)
    decreases t, 1
    ensures forall x :: x in r ==> !x.Union?
  {
    if t.Union? then FlatMembers(t, 0) else [t]
  }

  function FlatMembers(t: Type, i: nat): (r: seq<Type>)
    requires t.Union? && i <= |t.members|
    decreases t, 0, |t.members| - i
    ensures forall x :: x in r ==> !x.Union?
  {
    if i == |t.members| then [] else Flat(t.members[i]) + FlatMembers(t, i + 1)
  }

  lemma {:induction false} InFlatMembers(t: Type, i: nat, x: Type)
    requires t.Union? && i <= |t.members|
    ensures x in FlatMembers(t, i) <==> exists j :: i <= j < |t.members| && x in Flat(t.members[j])
    decreases |t.members| - i
  {
    if i < |t.members| {
      InFlatMembers(t, i + 1, x);
    }
  }

  lemma InFlatUnion(ms: seq<Type>, x: Type)
    ensures x in Flat(Union(ms)) <==> exists m :: m in ms && x in Flat(m)
  {
    var t := Union(ms);
    InFlatMembers(t, 0, x);
    if x in Flat(t) {
      var j :| 0 <= j < |ms| && x in Flat(ms[j]);
      assert ms[j] in ms;
    }
    if exists m :: m in ms && x in Flat(m) {
      var m :| m in ms && x in Flat(m);
      var j :| 0 <= j < |ms| && ms[j] == m;
      assert x in Flat(t.members[j]);
    }
  }

  /** A non-union type is below `b` exactly when it is one of `b`'s flattened members. */
  lemma {:induction false} AtomSubsetIffMember(x: Type, b: Type)
    requires !x.Union?
    ensures TypeSubsetOf(x, b) <==> x in Flat(b)
    decreases b
  {
    if b.Union? {
      forall y | y in b.members {
        AtomSubsetIffMember(x, y);
      }
      InFlatUnion(b.members, x);
    }
  }

  /** The subset relation is inclusion of flattened members: the independent, set-based reading
      of `typeSubsetOf`. */
  lemma {:induction false} SubsetIffFlatInclusion(a: Type, b: Type)
    ensures TypeSubsetOf(a, b) <==> (forall x :: x in Flat(a) ==> x in Flat(b))
    decreases a
  {
    if a.Union? {
      forall m | m in a.members {
        SubsetIffFlatInclusion(m, b);
      }
      forall x {
        InFlatUnion(a.members, x);
      }
    } else {
      AtomSubsetIffMember(a, b);
    }
  }

  /** Equivalence is equality of the sets of flattened members. */
  lemma EquivalentIffSameMembers(a: Type, b: Type)
    ensures TypeEquivalent(a, b) <==> (set x | x in Flat(a)) == (set x | x in Flat(b))
  {
    SubsetIffFlatInclusion(a, b);
    SubsetIffFlatInclusion(b, a);
    var fa, fb := set x | x in Flat(a), set x | x in Flat(b);
    SetOfInclusion(Flat(a), Flat(b));
    SetOfInclusion(Flat(b), Flat(a));
  }

  lemma SetOfInclusion(p: seq<Type>, q: seq<Type>)
    ensures (forall x :: x in p ==> x in q) <==> (set x | x in p) <= (set x | x in q)
  {
    var sp, sq := set x | x in p, set x | x in q;
    if sp <= sq {
      forall x | x in p ensures x in q {
        assert x in sp;
        assert x in sq;
      }
    }
  }

  lemma SubsetReflexive(a: Type)
    ensures TypeSubsetOf(a, a)
  {
    SubsetIffFlatInclusion(a, a);
  }

  lemma SubsetTransitive(a: Type, b: Type, c: Type)
    requires TypeSubsetOf(a, b) && TypeSubsetOf(b, c)
    ensures TypeSubsetOf(a, c)
  {
    SubsetIffFlatInclusion(a, b);
    SubsetIffFlatInclusion(b, c);
    SubsetIffFlatInclusion(a, c);
  }

  lemma EquivalentSymmetric(a: Type, b: Type)
    ensures TypeEquivalent(a, b) <==> TypeEquivalent(b, a)
  {
  }

  lemma FlatUnionOfSameMembers(xs: seq<Type>, ys: seq<Type>, x: Type)
    requires forall m :: m in xs ==> m in ys
    requires x in Flat(Union(xs))
    ensures x in Flat(Union(ys))
  {
    InFlatUnion(xs, x);
    InFlatUnion(ys, x);
  }

  /** Neither the order of a union's members nor repetitions among them matter. */
  lemma UnionOrderAndDuplicatesIrrelevant(xs: seq<Type>, ys: seq<Type>)
    requires forall m :: m in xs <==> m in ys
    ensures TypeEquivalent(Union(xs), Union(ys))
  {
    forall x | x in Flat(Union(xs)) { FlatUnionOfSameMembers(xs, ys, x); }
    forall x | x in Flat(Union(ys)) { FlatUnionOfSameMembers(ys, xs, x); }
    SubsetIffFlatInclusion(Union(xs), Union(ys));
    SubsetIffFlatInclusion(Union(ys), Union(xs));
  }

  /** A union nested as a member of a union is the same as its members spliced in. */
  lemma NestedUnionIrrelevant(xs: seq<Type>, ys: seq<Type>)
    ensures TypeEquivalent(Union([Union(xs)] + ys), Union(xs + ys))
  {
    var a := Union([Union(xs)] + ys);
    var b := Union(xs + ys);
    forall x
      ensures x in Flat(a) <==> x in Flat(b)
    {
      InFlatUnion([Union(xs)] + ys, x);
      InFlatUnion(xs + ys, x);
      InFlatUnion(xs, x);
      if x in Flat(b) {
        var m :| m in xs + ys && x in Flat(m);
        if m in xs {
          assert Union(xs) in [Union(xs)] + ys;
        } else {
          assert m in [Union(xs)] + ys;
        }
      }
    }
    SubsetIffFlatInclusion(a, b);
    SubsetIffFlatInclusion(b, a);
  }

  /** A union with one more member, not covered by the others, is not below the smaller union
      and so not equivalent to it. */
  lemma ExtraMemberBreaksSubset(xs: seq<Type>, e: Type)
    requires !e.Union?
    requires forall m :: m in xs ==> !TypeSubsetOf(e, m)
    ensures !TypeSubsetOf(Union(xs + [e]), Union(xs))
    ensures !TypeEquivalent(Union(xs + [e]), Union(xs))
  {
    assert e in xs + [e];
    if TypeSubsetOf(Union(xs + [e]), Union(xs)) {
      assert TypeSubsetOf(e, Union(xs));
    }
  }
}
