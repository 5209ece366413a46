/**
  * Linear (in)equalities over nodes (src/redy/framework/equations.py):
  * c0*n0 + c1*n1 + ... (<= | == | >=) scalar.
  */
module Equations {
  import opened Nodes

  /** `Equation.Comparator`: exactly these three. */
  datatype Comparator = LE | EQ | GE

  /** The left-hand side of a list of terms under an assignment of values to nodes. */
  function Lhs(ts: seq<Term>, x: Handle -> real): real
  {
    if ts == [] then 0.0 else ts[0].0 * x(ts[0].1) + Lhs(ts[1..], x)
  }

  /** What an equation asserts about an assignment. */
  predicate Holds(ts: seq<Term>, cmp: Comparator, scalar: real, x: Handle -> real)
  {
    match cmp
    case LE => Lhs(ts, x) <= scalar
    case EQ => Lhs(ts, x) == scalar
    case GE => Lhs(ts, x) >= scalar
  }

  /** The left-hand side of two terms, written out. */
  lemma LhsPair(a: real, m: Handle, b: real, n: Handle, x: Handle -> real)
    ensures Lhs([(a, m), (b, n)], x) == a * x(m) + b * x(n)
  {
    assert [(a, m), (b, n)][1..] == [(b, n)];
    assert [(b, n)][1..] == [];
    assert Lhs([(b, n)], x) == b * x(n) + Lhs([], x);
  }

  class Equation {
    var terms: seq<Term>
    const comparator: Comparator
    const scalar: real

    constructor (terms: seq<Term>, comparator: Comparator, scalar: real)
      ensures this.terms == terms && this.comparator == comparator && this.scalar == scalar
    {
      this.terms := terms;
      this.comparator := comparator;
      this.scalar := scalar;
    }

    /**
      * `duplicate`: a new Equation object with the same terms, comparator and scalar.
      * The copy is a distinct object, so translating it cannot touch this one.
      */
    method Duplicate() returns (e: Equation)
      ensures fresh(e)
      ensures e.terms == terms && e.comparator == comparator && e.scalar == scalar
    {
      e := new Equation(terms, comparator, scalar);
    }

    /**
      * `translate`: every term's node is passed through `t`; coefficient, position and
      * number of terms are kept, and the comparator and scalar cannot change (they are
      * constant fields).
      */
    method Translate(t: Trans)
      modifies this
      ensures |terms| == |old(terms)|
      ensures forall i :: 0 <= i < |terms| ==>
                terms[i].0 == old(terms)[i].0 && terms[i].1 == Apply(t, old(terms)[i].1)
    {
      terms := MapTerms(terms, t);
    }
  }
}
