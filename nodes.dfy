/**
  * The node graph of the intermediate representation (src/redy/framework/nodes.py).
  *
  * Python nodes are objects compared by identity. Here every node lives in an arena,
  * the class Graph, and is addressed by its position in it (a Handle). Creating a node
  * appends to the arena; the methods of a Python node become Graph methods that take
  * the node's handle.
  */
module Nodes {
  import opened Wrappers

  type Handle = nat

  /** A (coefficient, node) pair, as held by a weighted sum and by an equation. */
  type Term = (real, Handle)

  /** A bound interval [lower, upper]; either end may be unknown (None). */
  datatype Limit = Limit(lower: Option<real>, upper: Option<real>)

  const Unbounded: Limit := Limit(None, None)

  /** The four node classes: Node, NodeSum, NodeReLU and NodeAbs. */
  datatype Kind =
    | Plain
    | Sum(inputs: seq<Term>, scalar: real)
    | ReLU(input: Handle, relaxed: bool)
    | Abs(input: Handle)

  datatype Node = Node(kind: Kind, limit: Limit, name: Option<string>)

  /** A substitution of nodes; handles it does not mention are left alone. */
  type Trans = map<Handle, Handle>

  function Apply(t: Trans, h: Handle): Handle
  {
    if h in t then t[h] else h
  }

  /** The image of a list of handles under a substitution. */
  function MapHandles(hs: seq<Handle>, t: Trans): (r: seq<Handle>)
    ensures |r| == |hs|
    ensures forall i :: 0 <= i < |hs| ==> r[i] == Apply(t, hs[i])
  {
    seq(|hs|, i requires 0 <= i < |hs| => Apply(t, hs[i]))
  }

  // ---------------------------------------------------------------------------
  // Bounds

  /** x lies in the interval; an unknown end does not constrain x. */
  predicate Contains(lim: Limit, x: real)
  {
    && (lim.lower.None? || lim.lower.value <= x)
    && (lim.upper.None? || x <= lim.upper.value)
  }

  /** The interval an `updateLimit(lower, upper)` call leaves behind. */
  function Narrow(lim: Limit, lower: Option<real>, upper: Option<real>): (r: Limit)
    // the new interval is the intersection of the old one and the proposed one
    ensures forall x :: Contains(r, x) <==> Contains(lim, x) && Contains(Limit(lower, upper), x)
    // a missing argument leaves that end alone; an unknown end adopts the proposed value
    ensures lower.None? ==> r.lower == lim.lower
    ensures upper.None? ==> r.upper == lim.upper
    ensures lim.lower.None? ==> r.lower == lower
    ensures lim.upper.None? ==> r.upper == upper
    // with both ends known, the tighter one wins: never widens
    ensures lower.Some? && lim.lower.Some? ==>
              r.lower.Some? && r.lower.value >= lower.value && r.lower.value >= lim.lower.value
              && (r.lower.value == lower.value || r.lower.value == lim.lower.value)
    ensures upper.Some? && lim.upper.Some? ==>
              r.upper.Some? && r.upper.value <= upper.value && r.upper.value <= lim.upper.value
              && (r.upper.value == upper.value || r.upper.value == lim.upper.value)
  {
    var l := if lower.Some? && (lim.lower.None? || lower.value > lim.lower.value) then lower else lim.lower;
    var u := if upper.Some? && (lim.upper.None? || lim.upper.value > upper.value) then upper else lim.upper;
    Limit(l, u)
  }

  /**
    * The assertion at the end of `updateLimit`: it is only made when both ends were
    * supplied, and then demands that the narrowed interval is not empty.
    */
  predicate LimitAccepted(r: Limit, lower: Option<real>, upper: Option<real>)
  {
    lower.Some? && upper.Some? ==> r.lower.Some? && r.upper.Some? && r.lower.value <= r.upper.value
  }

  /** The effect of a whole sequence of `updateLimit` calls, applied in order. */
  function NarrowAll(lim: Limit, steps: seq<Limit>): Limit
    decreases |steps|
  {
    if steps == [] then lim
    else NarrowAll(Narrow(lim, steps[0].lower, steps[0].upper), steps[1..])
  }

  /** Any sequence of narrowings ends at the intersection of all the intervals applied. */
  lemma {:induction false} NarrowAllIsIntersection(lim: Limit, steps: seq<Limit>, x: real)
    ensures Contains(NarrowAll(lim, steps), x)
        <==> Contains(lim, x) && forall i :: 0 <= i < |steps| ==> Contains(steps[i], x)
    decreases |steps|
  {
    if steps != [] {
      var next := Narrow(lim, steps[0].lower, steps[0].upper);
      NarrowAllIsIntersection(next, steps[1..], x);
      assert forall i :: 1 <= i < |steps| ==> steps[i] == steps[1..][i - 1];
      assert steps[0] == Limit(steps[0].lower, steps[0].upper);
    }
  }

  /** The order of two narrowings does not matter. */
  lemma NarrowCommutes(lim: Limit, a: Limit, b: Limit)
    ensures Narrow(Narrow(lim, a.lower, a.upper), b.lower, b.upper)
         == Narrow(Narrow(lim, b.lower, b.upper), a.lower, a.upper)
  {
  }

  /** Narrowing twice by the same interval is the same as narrowing once. */
  lemma NarrowIdempotent(lim: Limit, a: Limit)
    ensures Narrow(Narrow(lim, a.lower, a.upper), a.lower, a.upper) == Narrow(lim, a.lower, a.upper)
  {
  }

  // ---------------------------------------------------------------------------
  // References between nodes

  /** The input nodes of a list of terms, in order. */
  function TermNodes(ts: seq<Term>): (r: seq<Handle>)
    ensures |r| == |ts|
    ensures forall i :: 0 <= i < |ts| ==> r[i] == ts[i].1
  {
    if ts == [] then [] else [ts[0].1] + TermNodes(ts[1..])
  }

  /** `[(c, trans(n)) for c, n in terms]`: coefficients, order and length are kept. */
  function MapTerms(ts: seq<Term>, t: Trans): (r: seq<Term>)
    ensures |r| == |ts|
    ensures forall i :: 0 <= i < |ts| ==> r[i].0 == ts[i].0 && r[i].1 == Apply(t, ts[i].1)
  {
    if ts == [] then [] else [(ts[0].0, Apply(t, ts[0].1))] + MapTerms(ts[1..], t)
  }

  /**
    * `connectedTo`: the nodes a node reads from. An input reads nothing, a sum the node of
    * each term in order, a ReLU or an absolute value its one input.
    */
  function ConnectedTo(k: Kind): (r: seq<Handle>)
    ensures k.Plain? ==> r == []
    ensures k.Sum? ==> |r| == |k.inputs| && forall i :: 0 <= i < |r| ==> r[i] == k.inputs[i].1
    ensures k.ReLU? || k.Abs? ==> r == [k.input]
  {
    match k
    case Plain => []
    case Sum(inputs, _) => TermNodes(inputs)
    case ReLU(input, _) => [input]
    case Abs(input) => [input]
  }

  /** `translate`: the node with each of its references passed through `t`. */
  function Translated(k: Kind, t: Trans): Kind
  {
    match k
    case Plain => Plain
    case Sum(inputs, scalar) => Sum(MapTerms(inputs, t), scalar)
    case ReLU(input, relaxed) => ReLU(Apply(t, input), relaxed)
    case Abs(input) => Abs(Apply(t, input))
  }

  /** The arena after the nodes `hs` (each once, whatever the repetitions) are translated by `t`. */
  function TranslateAt(A: seq<Node>, hs: set<Handle>, t: Trans): (r: seq<Node>)
    ensures |r| == |A|
    ensures forall h :: 0 <= h < |A| ==> r[h] == if h in hs then A[h].(kind := Translated(A[h].kind, t)) else A[h]
  {
    seq(|A|, h requires 0 <= h < |A| => if h in hs then A[h].(kind := Translated(A[h].kind, t)) else A[h])
  }

  /**
    * Translating a node keeps its class and payload apart from the references, and the
    * references of the translated node are the images of the old ones, in order.
    */
  lemma TranslatedShape(k: Kind, t: Trans)
    ensures ConnectedTo(Translated(k, t)) == MapHandles(ConnectedTo(k), t)
    ensures k.Plain? ==> Translated(k, t) == k
    ensures k.Sum? ==> Translated(k, t).Sum? && Translated(k, t).scalar == k.scalar
                       && |Translated(k, t).inputs| == |k.inputs|
                       && forall i :: 0 <= i < |k.inputs| ==> Translated(k, t).inputs[i].0 == k.inputs[i].0
    ensures k.ReLU? ==> Translated(k, t) == ReLU(Apply(t, k.input), k.relaxed)
    ensures k.Abs? ==> Translated(k, t) == Abs(Apply(t, k.input))
  {
  }

  /** A substitution that fixes every reference of a node leaves the node alone. */
  lemma TranslatedFixes(k: Kind, t: Trans)
    requires forall h :: h in ConnectedTo(k) ==> Apply(t, h) == h
    ensures Translated(k, t) == k
  {
    if k.Sum? {
      var r := MapTerms(k.inputs, t);
      forall i | 0 <= i < |k.inputs| ensures r[i] == k.inputs[i] {
        assert k.inputs[i].1 == ConnectedTo(k)[i];
      }
    }
  }

  /** Translating twice composes the two substitutions. */
  lemma TranslatedTwice(k: Kind, t: Trans, u: Trans)
    ensures Translated(Translated(k, t), u) == Translated(k, map h | h in t.Keys + u.Keys :: Apply(u, Apply(t, h)))
  {
    var c := map h | h in t.Keys + u.Keys :: Apply(u, Apply(t, h));
    assert forall h :: Apply(c, h) == Apply(u, Apply(t, h));
    if k.Sum? {
      var r := MapTerms(MapTerms(k.inputs, t), u);
      var s := MapTerms(k.inputs, c);
      assert forall i :: 0 <= i < |k.inputs| ==> r[i] == s[i];
    }
  }

  /** A substitution whose images are never themselves substituted does its work in one pass. */
  lemma TranslatedIdempotent(k: Kind, t: Trans)
    requires forall h :: h in t ==> t[h] !in t
    ensures Translated(Translated(k, t), t) == Translated(k, t)
  {
    assert forall h :: Apply(t, Apply(t, h)) == Apply(t, h);
    if k.Sum? {
      var r := MapTerms(MapTerms(k.inputs, t), t);
      var s := MapTerms(k.inputs, t);
      assert forall i :: 0 <= i < |k.inputs| ==> r[i] == s[i];
    }
  }

  // ---------------------------------------------------------------------------
  // copyFrom

  /**
    * Whether `dst.copyFrom(src)` runs: copyFrom is the method of the TARGET's class, and it
    * reads the payload fields that class has from the source, which must have them too.
    */
  predicate CopyCompatible(dst: Kind, src: Kind)
  {
    match dst
    case Plain => true
    case Sum(_, _) => src.Sum?
    case ReLU(_, _) => src.ReLU?
    case Abs(_) => src.ReLU? || src.Abs?
  }

  /** The node `dst` becomes after `dst.copyFrom(src)`. */
  function CopiedFrom(dst: Node, src: Node): (r: Node)
    requires CopyCompatible(dst.kind, src.kind)
    ensures r.limit == src.limit && r.name == src.name
    ensures dst.kind.Plain? ==> r.kind == Plain
    ensures !dst.kind.Plain? ==> ConnectedTo(r.kind) == ConnectedTo(src.kind)
    ensures dst.kind.Plain? || dst.kind.Abs? || r.kind == src.kind
  {
    var kind := match dst.kind
      case Plain => Plain
      case Sum(_, _) => Sum(src.kind.inputs, src.kind.scalar)
      case ReLU(_, _) => ReLU(src.kind.input, src.kind.relaxed)
      case Abs(_) => Abs(src.kind.input);
    Node(kind, src.limit, src.name)
  }

  /** The arena that owns every node. */
  class Graph {
    var nodes: seq<Node>

    constructor ()
      ensures nodes == []
    {
      nodes := [];
    }

    /** `connectedTo` of the node `h`. */
    function Refs(h: Handle): seq<Handle>
      reads this
      requires h < |nodes|
    {
      ConnectedTo(nodes[h].kind)
    }

    /** Creates a node (the Python constructors plus the field assignments after them). */
    method Add(n: Node) returns (h: Handle)
      modifies this
      ensures nodes == old(nodes) + [n]
      ensures h == |old(nodes)|
    {
      h := |nodes|;
      nodes := nodes + [n];
    }

    /**
      * `updateLimit(lower, upper)`: narrows the bound interval. The interval is stored
      * before the assertion is made, so a failing call (ok false) still changes it.
      */
    method UpdateLimit(h: Handle, lower: Option<real>, upper: Option<real>) returns (ok: bool)
      requires h < |nodes|
      modifies this
      ensures nodes == old(nodes)[h := old(nodes)[h].(limit := Narrow(old(nodes)[h].limit, lower, upper))]
      ensures ok == LimitAccepted(nodes[h].limit, lower, upper)
      ensures lower.None? || upper.None? ==> ok
    {
      var l, u := nodes[h].limit.lower, nodes[h].limit.upper;
      if lower.Some? && (l.None? || lower.value > l.value) {
        l := lower;
      }
      if upper.Some? && (u.None? || u.value > upper.value) {
        u := upper;
      }
      nodes := nodes[h := nodes[h].(limit := Limit(l, u))];
      ok := true;
      if lower.Some? && upper.Some? {
        ok := l.value <= u.value;
      }
    }

    /** `duplicate`: a new node of the same class with the same limit, name and payload. */
    method DuplicateNode(h: Handle) returns (d: Handle)
      requires h < |nodes|
      modifies this
      ensures nodes == old(nodes) + [old(nodes)[h]]
      ensures d == |old(nodes)| && d != h
      ensures Refs(d) == Refs(h)
    {
      var n := nodes[h];
      d := Add(Node(n.kind, Unbounded, None));
      CopyFrom(d, h);
      assert nodes[d] == n;
    }

    /** `dst.copyFrom(src)`. */
    method CopyFrom(dst: Handle, src: Handle)
      requires dst < |nodes| && src < |nodes|
      requires CopyCompatible(nodes[dst].kind, nodes[src].kind)
      modifies this
      ensures nodes == old(nodes)[dst := CopiedFrom(old(nodes)[dst], old(nodes)[src])]
    {
      nodes := nodes[dst := CopiedFrom(nodes[dst], nodes[src])];
    }

    /** `translate(trans)` on the node `h`; its limit and name are untouched. */
    method Translate(h: Handle, t: Trans)
      requires h < |nodes|
      modifies this
      ensures nodes == old(nodes)[h := old(nodes)[h].(kind := Translated(old(nodes)[h].kind, t))]
      ensures Refs(h) == MapHandles(old(Refs(h)), t)
    {
      TranslatedShape(nodes[h].kind, t);
      nodes := nodes[h := nodes[h].(kind := Translated(nodes[h].kind, t))];
    }

    /** Assignment to the `name` attribute. */
    method SetName(h: Handle, name: Option<string>)
      requires h < |nodes|
      modifies this
      ensures nodes == old(nodes)[h := old(nodes)[h].(name := name)]
    {
      nodes := nodes[h := nodes[h].(name := name)];
    }
  }
}
