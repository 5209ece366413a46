/**
  * The reference evaluator (src/redy/convert/export_evaluate.py): a `ViewIO` is lowered
  * to numbered variables, linear records and ReLU relations; `forwardEvaluate` then
  * propagates values from the inputs to a fixed point and `validate` checks the result.
  *
  * Variables are the positions of `nodes` (the first position of a node listed twice).
  * The source's `translate` dict holds both directions in one dict, keyed by node objects
  * and by ints; here the two directions are two maps, because handles are numbers too.
  */
module Evaluate {
  import opened Wrappers
  import opened Nodes
  import opened Equations
  import opened Views
  import opened Compare

  /** EPSILON, the tolerance of `validate`. */
  const Epsilon: real := 0.0000000000001

  type Var = nat
  type Assignment = map<Var, real>

  /** A linear record `(equType, scalar, adds)`: type 0 is EQ, 1 is GE, 2 is LE; adds are (variable, coefficient). */
  datatype Record = Record(equType: int, scalar: real, adds: seq<(Var, real)>)

  /** A piecewise-linear relation `(tag, vb, vf)`: `vf = max(0, vb)` when the tag is "relu". */
  datatype Relation = Relation(tag: string, vb: Var, vf: Var)

  /** A dict from variable to bound, as its items in insertion order. */
  type Bounds = seq<(Var, real)>

  /** Every field of an `Evaluator`. */
  datatype Tables = Tables(
    toVar: map<Handle, Var>, toNode: map<Var, Handle>, numVars: nat,
    inputVars: seq<Var>, outputVars: seq<Var>,
    lowerBounds: Bounds, upperBounds: Bounds,
    equList: seq<Record>, constraints: seq<Relation>)

  // ---------------------------------------------------------------------------
  // Numbering

  /** `nl.index(h)`: the first position of `h`, or None where the source raises ValueError. */
  function IndexOf(nl: seq<Handle>, h: Handle): (r: Option<Var>)
    ensures r.Some? <==> h in nl
    ensures r.Some? ==> r.value < |nl| && nl[r.value] == h && h !in nl[..r.value]
  {
    if nl == [] then None
    else if nl[0] == h then Some(0)
    else match IndexOf(nl[1..], h)
      case None => None
      case Some(i) =>
        assert nl[..i + 1] == [nl[0]] + nl[1..][..i];
        Some(i + 1)
  }

  /** `[trans(n) for n in hs]`. */
  function Vars(nl: seq<Handle>, hs: seq<Handle>): (r: Result<seq<Var>, Fault>)
    ensures r.Ok? <==> forall i :: 0 <= i < |hs| ==> hs[i] in nl
    ensures r.Fail? ==> r.error == IndexOutOfRange
    ensures r.Ok? ==> |r.value| == |hs| && forall i :: 0 <= i < |hs| ==> Some(r.value[i]) == IndexOf(nl, hs[i])
  {
    if forall i :: 0 <= i < |hs| ==> hs[i] in nl then
      Ok(seq(|hs|, i requires 0 <= i < |hs| => IndexOf(nl, hs[i]).value))
    else Fail(IndexOutOfRange)
  }

  /** The terms `(trans(v), c)` of the terms `(c, v)` of a sum or an equation. */
  function Terms(nl: seq<Handle>, ts: seq<Term>): (r: Result<seq<(Var, real)>, Fault>)
    ensures r.Ok? <==> forall i :: 0 <= i < |ts| ==> ts[i].1 in nl
    ensures r.Fail? ==> r.error == IndexOutOfRange
    ensures r.Ok? ==> |r.value| == |ts| && forall i :: 0 <= i < |ts| ==>
              r.value[i].1 == ts[i].0 && Some(r.value[i].0) == IndexOf(nl, ts[i].1)
  {
    if forall i :: 0 <= i < |ts| ==> ts[i].1 in nl then
      Ok(seq(|ts|, i requires 0 <= i < |ts| => (IndexOf(nl, ts[i].1).value, ts[i].0)))
    else Fail(IndexOutOfRange)
  }

  /** The loop over a term list: fails at the first node outside `nl`. */
  method LowerTerms(nl: seq<Handle>, ts: seq<Term>) returns (r: Result<seq<(Var, real)>, Fault>)
    ensures r == Terms(nl, ts)
  {
    var out: seq<(Var, real)> := [];
    var k := 0;
    while k < |ts|
      invariant 0 <= k <= |ts| && |out| == k
      invariant forall i :: 0 <= i < k ==> ts[i].1 in nl
      invariant forall i :: 0 <= i < k ==> out[i].1 == ts[i].0 && Some(out[i].0) == IndexOf(nl, ts[i].1)
    {
      var (c, v) := ts[k];
      var i := IndexOf(nl, v);
      if i.None? {
        return Fail(IndexOutOfRange);
      }
      out := out + [(i.value, c)];
      k := k + 1;
    }
    assert out == Terms(nl, ts).value;
    return Ok(out);
  }

  /** `d[k] = x` on a dict kept as items: an existing key keeps its place. */
  function Store(bs: Bounds, k: Var, x: real): (r: Bounds)
    ensures Lookup(r, k) == Some(x)
    ensures forall k' :: k' != k ==> Lookup(r, k') == Lookup(bs, k')
    ensures |r| == |bs| || |r| == |bs| + 1
  {
    if bs == [] then [(k, x)]
    else if bs[0].0 == k then [(k, x)] + bs[1..]
    else [bs[0]] + Store(bs[1..], k, x)
  }

  /** `d.get(k)` on a dict kept as items. */
  function Lookup(bs: Bounds, k: Var): Option<real>
  {
    if bs == [] then None
    else if bs[0].0 == k then Some(bs[0].1)
    else Lookup(bs[1..], k)
  }

  // ---------------------------------------------------------------------------
  // export_evaluate

  /** The comparator codes of `compareTrans`. */
  function Code(cmp: Comparator): int
  {
    match cmp
    case EQ => 0
    case GE => 1
    case LE => 2
  }

  /** The loop body of `export_evaluate` for one node `h`: its bounds, then its record or relation. */
  function NodeStep(A: seq<Node>, nl: seq<Handle>, h: Handle, t: Tables): Result<Tables, Fault>
    requires h in nl && h < |A|
  {
    var i := IndexOf(nl, h).value;
    var n := A[h];
    var t1 := t.(
      lowerBounds := if n.limit.lower.Some? then Store(t.lowerBounds, i, n.limit.lower.value) else t.lowerBounds,
      upperBounds := if n.limit.upper.Some? then Store(t.upperBounds, i, n.limit.upper.value) else t.upperBounds);
    match n.kind
    case Sum(ts, s) =>
      (match Terms(nl, ts)
       case Fail(e) => Fail(e)
       case Ok(adds) => Ok(t1.(equList := t1.equList + [Record(0, -s, adds + [(i, -1.0)])])))
    case ReLU(x, _) =>
      if x in nl then Ok(t1.(constraints := t1.constraints + [Relation("relu", IndexOf(nl, x).value, i)]))
      else Fail(IndexOutOfRange)
    case Plain => Ok(t1)
    case Abs(_) => Fail(UnsupportedTopology)
  }

  /** The node loop from position `j` on. */
  function LowerNodes(A: seq<Node>, nl: seq<Handle>, j: nat, t: Tables): Result<Tables, Fault>
    requires j <= |nl| && forall h :: h in nl ==> h < |A|
    decreases |nl| - j
  {
    if j == |nl| then Ok(t)
    else match NodeStep(A, nl, nl[j], t)
      case Fail(e) => Fail(e)
      case Ok(t') => LowerNodes(A, nl, j + 1, t')
  }

  /** The loop over the view's equations from position `j` on. */
  function LowerEquations(nl: seq<Handle>, eqs: seq<Constraint>, j: nat, t: Tables): Result<Tables, Fault>
    requires j <= |eqs|
    decreases |eqs| - j
  {
    if j == |eqs| then Ok(t)
    else match Terms(nl, eqs[j].terms)
      case Fail(e) => Fail(e)
      case Ok(adds) =>
        LowerEquations(nl, eqs, j + 1, t.(equList := t.equList + [Record(Code(eqs[j].comparator), eqs[j].scalar, adds)]))
  }

  /** The node-to-variable half of `translate`. */
  function ToVar(nl: seq<Handle>): map<Handle, Var>
  {
    map h | h in nl :: IndexOf(nl, h).value
  }

  /** The variable-to-node half of `translate`: the first position of each node. */
  function ToNode(nl: seq<Handle>): map<Var, Handle>
  {
    map i | 0 <= i < |nl| && nl[i] !in nl[..i] :: nl[i]
  }

  /** `export_evaluate` of a view with nodes `nl` over the arena `A`. */
  function Lowering(A: seq<Node>, nl: seq<Handle>, inputs: seq<Handle>, outputs: seq<Handle>, eqs: seq<Constraint>)
    : Result<Tables, Fault>
    requires forall h :: h in nl ==> h < |A|
  {
    match Vars(nl, inputs)
    case Fail(e) => Fail(e)
    case Ok(iv) =>
      match Vars(nl, outputs)
      case Fail(e) => Fail(e)
      case Ok(ov) =>
        match LowerNodes(A, nl, 0, Tables(map[], map[], |nl|, iv, ov, [], [], [], []))
        case Fail(e) => Fail(e)
        case Ok(t1) =>
          match LowerEquations(nl, eqs, 0, t1)
          case Fail(e) => Fail(e)
          case Ok(t2) => Ok(t2.(toVar := ToVar(nl), toNode := ToNode(nl)))
  }

  /** The `translate` loop of `export_evaluate`: both directions, node by node. */
  method TranslateTables(nl: seq<Handle>) returns (tv: map<Handle, Var>, tn: map<Var, Handle>)
    ensures tv == ToVar(nl) && tn == ToNode(nl)
  {
    tv, tn := map[], map[];
    var k := 0;
    while k < |nl|
      invariant 0 <= k <= |nl| && Translated(nl, k, tv, tn)
    {
      var h := nl[k];
      var i := IndexOf(nl, h).value;
      TranslateStep(nl, k, tv, tn);
      tv := tv[h := i];
      tn := tn[i := h];
      k := k + 1;
    }
    TablesAre(nl, tv, tn);
  }

  /** The two halves of `translate` after the nodes `nl[..k]`. */
  ghost predicate Translated(nl: seq<Handle>, k: nat, tv: map<Handle, Var>, tn: map<Var, Handle>)
    requires k <= |nl|
  {
    && (forall h :: h in tv <==> h in nl[..k])
    && (forall h :: h in tv ==> Some(tv[h]) == IndexOf(nl, h))
    && (forall i :: i in tn <==> 0 <= i < k && nl[i] !in nl[..i])
    && (forall i :: i in tn ==> tn[i] == nl[i])
  }

  /** One step of the `translate` loop. */
  lemma TranslateStep(nl: seq<Handle>, k: nat, tv: map<Handle, Var>, tn: map<Var, Handle>)
    requires k < |nl| && Translated(nl, k, tv, tn)
    ensures var i := IndexOf(nl, nl[k]).value; Translated(nl, k + 1, tv[nl[k] := i], tn[i := nl[k]])
  {
    ToVarStep(nl, k, tv);
    ToNodeStep(nl, k, tn);
  }

  /** One step of the node-to-variable half. */
  lemma ToVarStep(nl: seq<Handle>, k: nat, tv: map<Handle, Var>)
    requires k < |nl|
    requires forall h :: h in tv <==> h in nl[..k]
    requires forall h :: h in tv ==> Some(tv[h]) == IndexOf(nl, h)
    ensures var tv' := tv[nl[k] := IndexOf(nl, nl[k]).value];
      && (forall h :: h in tv' <==> h in nl[..k + 1])
      && (forall h :: h in tv' ==> Some(tv'[h]) == IndexOf(nl, h))
  {
    assert nl[..k + 1] == nl[..k] + [nl[k]];
  }

  /** One step of the variable-to-node half: a repeated node adds nothing. */
  lemma ToNodeStep(nl: seq<Handle>, k: nat, tn: map<Var, Handle>)
    requires k < |nl|
    requires forall i :: i in tn <==> 0 <= i < k && nl[i] !in nl[..i]
    requires forall i :: i in tn ==> tn[i] == nl[i]
    ensures var i := IndexOf(nl, nl[k]).value; var tn' := tn[i := nl[k]];
      && (forall j :: j in tn' <==> 0 <= j < k + 1 && nl[j] !in nl[..j])
      && (forall j :: j in tn' ==> tn'[j] == nl[j])
  {
    var i := IndexOf(nl, nl[k]).value;
    var tn' := tn[i := nl[k]];
    FirstPosition(nl, k);
    if i == k {
      forall j ensures j in tn' <==> 0 <= j < k + 1 && nl[j] !in nl[..j] {
        if j != k {
          assert j in tn' <==> j in tn;
        }
      }
    } else {
      assert i in tn;
      assert tn' == tn;
      forall j ensures j in tn' <==> 0 <= j < k + 1 && nl[j] !in nl[..j] {
        if j == k {
          assert nl[j] in nl[..j];
        }
      }
    }
  }

  /** After the whole loop the tables are `ToVar` and `ToNode`. */
  lemma TablesAre(nl: seq<Handle>, tv: map<Handle, Var>, tn: map<Var, Handle>)
    requires Translated(nl, |nl|, tv, tn)
    ensures tv == ToVar(nl) && tn == ToNode(nl)
  {
    assert nl[..|nl|] == nl;
  }

  /** The first position of `nl[k]` is at most `k`, and is `k` exactly when `nl[k]` is new there. */
  lemma FirstPosition(nl: seq<Handle>, k: int)
    requires 0 <= k < |nl|
    ensures IndexOf(nl, nl[k]).value <= k
    ensures IndexOf(nl, nl[k]).value == k <==> nl[k] !in nl[..k]
  {
    var i := IndexOf(nl, nl[k]).value;
    if i < k {
      assert nl[..k][i] == nl[k];
    }
  }

  /** The equations of a view as values. */
  function EquationValues(es: seq<Equation>): (r: seq<Constraint>)
    reads es
    ensures |r| == |es| && forall i :: 0 <= i < |es| ==>
              r[i] == Constraint(es[i].terms, es[i].comparator, es[i].scalar)
  {
    seq(|es|, i requires 0 <= i < |es| reads es => Constraint(es[i].terms, es[i].comparator, es[i].scalar))
  }

  /**
    * `export_evaluate(view)`: numbers the nodes, lowers the inputs and outputs, then each
    * node (its bounds, then a record for a sum or a relation for a ReLU), then each
    * equation, and fills `translate`. A node outside `view.nodes` that something refers to
    * raises ValueError (IndexOutOfRange); an Abs node fails its assertion.
    */
  method ExportEvaluate(g: Graph, view: ViewIO) returns (r: Result<Evaluator, Fault>)
    requires forall h :: h in view.nodes ==> h < |g.nodes|
    ensures var s := Lowering(g.nodes, view.nodes, view.inputs, view.outputs, EquationValues(view.equations));
            && (r.Ok? <==> s.Ok?)
            && (r.Fail? ==> r.error == s.error)
            && (r.Ok? ==> fresh(r.value) && r.value.Snapshot() == s.value)
  {
    var ev := new Evaluator();
    var nl := view.nodes;
    ev.numVars := |nl|;
    var iv := Vars(nl, view.inputs);
    if iv.Fail? {
      return Fail(iv.error);
    }
    ev.inputVars := iv.value;
    var ov := Vars(nl, view.outputs);
    if ov.Fail? {
      return Fail(ov.error);
    }
    ev.outputVars := ov.value;
    assert ev.Snapshot() == Tables(map[], map[], |nl|, iv.value, ov.value, [], [], [], []);
    var a := ev.AddNodes(g, nl);
    if a.Failed? {
      return Fail(a.error);
    }
    var b := ev.AddEquations(view.equations, nl);
    if b.Failed? {
      return Fail(b.error);
    }
    ev.FillTranslate(nl);
    return Ok(ev);
  }

  // ---------------------------------------------------------------------------
  // Evaluation

  /** `max(0, x)`. */
  function Max0(x: real): real
  {
    if x >= 0.0 then x else 0.0
  }

  /** All variables of the terms have a value. */
  predicate AllIn(adds: seq<(Var, real)>, d: Assignment)
  {
    forall k :: 0 <= k < |adds| ==> adds[k].0 in d
  }

  /** `sum(d[v] * c for v, c in adds)`. */
  function Weighted(adds: seq<(Var, real)>, d: Assignment): real
    requires AllIn(adds, d)
  {
    if adds == [] then 0.0 else d[adds[0].0] * adds[0].1 + Weighted(adds[1..], d)
  }

  /** `sum(d[v] * c for v, c in adds if v != nv)`. */
  function SumExcept(adds: seq<(Var, real)>, d: Assignment, nv: Var): real
    requires forall k :: 0 <= k < |adds| && adds[k].0 != nv ==> adds[k].0 in d
  {
    if adds == [] then 0.0
    else (if adds[0].0 != nv then d[adds[0].0] * adds[0].1 else 0.0) + SumExcept(adds[1..], d, nv)
  }

  /** `[(v, c) for v, c in adds if v not in d]`. */
  function Unknowns(adds: seq<(Var, real)>, d: Assignment): (r: seq<(Var, real)>)
    ensures forall p :: p in r ==> p in adds && p.0 !in d
    ensures r == [] <==> AllIn(adds, d)
  {
    if adds == [] then []
    else if adds[0].0 in d then Unknowns(adds[1..], d)
    else [adds[0]] + Unknowns(adds[1..], d)
  }

  /** `d` keeps every value of `d0`. */
  predicate Extends(d: Assignment, d0: Assignment)
  {
    forall v :: v in d0 ==> v in d && d[v] == d0[v]
  }

  /** How `forwardEvaluate` ends: its assignment, and the validation result when it is asked for. */
  datatype Evaluation = Values(d: Assignment) | Checked(valid: bool, d: Assignment)

  /** `Evaluator`: the lowered query. */
  class Evaluator {
    var toVar: map<Handle, Var>
    var toNode: map<Var, Handle>
    var numVars: nat
    var inputVars: seq<Var>
    var outputVars: seq<Var>
    var lowerBounds: Bounds
    var upperBounds: Bounds
    var equList: seq<Record>
    var constraints: seq<Relation>

    constructor ()
      ensures Snapshot() == Tables(map[], map[], 0, [], [], [], [], [], [])
    {
      toVar, toNode, numVars := map[], map[], 0;
      inputVars, outputVars := [], [];
      lowerBounds, upperBounds := [], [];
      equList, constraints := [], [];
    }

    function Snapshot(): Tables
      reads this
    {
      Tables(toVar, toNode, numVars, inputVars, outputVars, lowerBounds, upperBounds, equList, constraints)
    }

    /** The body of the node loop of `export_evaluate` for node `h`. */
    method AddNode(g: Graph, nl: seq<Handle>, h: Handle) returns (r: Outcome<Fault>)
      requires h in nl && h < |g.nodes|
      modifies this
      ensures var s := NodeStep(g.nodes, nl, h, old(Snapshot()));
              && (r.Pass? <==> s.Ok?)
              && (r.Failed? ==> r.error == s.error)
              && (s.Ok? ==> Snapshot() == s.value)
    {
      ghost var step := NodeStep(g.nodes, nl, h, Snapshot());
      var i := IndexOf(nl, h).value;
      var node := g.nodes[h];
      if node.limit.lower.Some? {
        lowerBounds := Store(lowerBounds, i, node.limit.lower.value);
      }
      if node.limit.upper.Some? {
        upperBounds := Store(upperBounds, i, node.limit.upper.value);
      }
      ghost var t1 := Snapshot();
      match node.kind {
        case Sum(ts, s) =>
          var adds := LowerTerms(nl, ts);
          if adds.Fail? {
            assert step == Fail(adds.error);
            return Failed(adds.error);
          }
          equList := equList + [Record(0, -s, adds.value + [(i, -1.0)])];
          assert step == Ok(t1.(equList := t1.equList + [Record(0, -s, adds.value + [(i, -1.0)])]));
        case ReLU(x, _) =>
          var xi := IndexOf(nl, x);
          if xi.None? {
            assert step == Fail(IndexOutOfRange);
            return Failed(IndexOutOfRange);
          }
          constraints := constraints + [Relation("relu", xi.value, i)];
          assert step == Ok(t1.(constraints := t1.constraints + [Relation("relu", xi.value, i)]));
        case Plain =>
          assert step == Ok(t1);
        case Abs(_) =>
          assert step == Fail(UnsupportedTopology);
          return Failed(UnsupportedTopology);
      }
      return Pass;
    }

    /** The node loop of `export_evaluate`. */
    method AddNodes(g: Graph, nl: seq<Handle>) returns (r: Outcome<Fault>)
      requires forall h :: h in nl ==> h < |g.nodes|
      modifies this
      ensures var s := LowerNodes(g.nodes, nl, 0, old(Snapshot()));
              && (r.Pass? <==> s.Ok?)
              && (r.Failed? ==> r.error == s.error)
              && (s.Ok? ==> Snapshot() == s.value)
    {
      var j := 0;
      while j < |nl|
        invariant 0 <= j <= |nl|
        invariant LowerNodes(g.nodes, nl, j, Snapshot()) == LowerNodes(g.nodes, nl, 0, old(Snapshot()))
      {
        var a := AddNode(g, nl, nl[j]);
        if a.Failed? {
          return a;
        }
        j := j + 1;
      }
      return Pass;
    }

    /** The equation loop of `export_evaluate`. */
    method AddEquations(es: seq<Equation>, nl: seq<Handle>) returns (r: Outcome<Fault>)
      modifies this
      ensures var s := LowerEquations(nl, EquationValues(es), 0, old(Snapshot()));
              && (r.Pass? <==> s.Ok?)
              && (r.Failed? ==> r.error == s.error)
              && (s.Ok? ==> Snapshot() == s.value)
    {
      ghost var eqs := EquationValues(es);
      var q := 0;
      while q < |es|
        invariant 0 <= q <= |es|
        invariant eqs == EquationValues(es)
        invariant LowerEquations(nl, eqs, q, Snapshot()) == LowerEquations(nl, eqs, 0, old(Snapshot()))
      {
        var e := es[q];
        var adds := LowerTerms(nl, e.terms);
        if adds.Fail? {
          return Failed(adds.error);
        }
        equList := equList + [Record(Code(e.comparator), e.scalar, adds.value)];
        q := q + 1;
      }
      return Pass;
    }

    /** Stores the `translate` tables. */
    method FillTranslate(nl: seq<Handle>)
      modifies this
      ensures Snapshot() == old(Snapshot()).(toVar := ToVar(nl), toNode := ToNode(nl))
    {
      toVar, toNode := TranslateTables(nl);
    }

    // -------------------------------------------------------------------------
    // Seeding

    /** The variables with equal lower and upper bounds, in the order of the lower bounds. */
    function FixedFrom(d: Assignment, j: nat): Assignment
      requires j <= |lowerBounds|
      reads this
      decreases |lowerBounds| - j
    {
      if j == |lowerBounds| then d
      else
        var (v, l) := lowerBounds[j];
        var d' := if Lookup(upperBounds, v) == Some(l) then d[v := l] else d;
        FixedFrom(d', j + 1)
    }

    /** `for v, c in zip(self.inputVars, inp): d[v] = c` from position `j` on. */
    function InputsFrom(inp: seq<real>, d: Assignment, j: nat): Assignment
      requires |inp| == |inputVars| && j <= |inp|
      reads this
      decreases |inp| - j
    {
      if j == |inp| then d else InputsFrom(inp, d[inputVars[j] := inp[j]], j + 1)
    }

    /** The assignment the fixed-point loop starts from. */
    function Seed(inp: seq<real>): Assignment
      requires |inp| == |inputVars|
      reads this
    {
      FixedFrom(InputsFrom(inp, map[], 0), 0)
    }

    /** A variable whose two bounds agree. */
    predicate Fixed(v: Var, x: real)
      reads this
    {
      Lookup(lowerBounds, v) == Some(x) && Lookup(upperBounds, v) == Some(x)
    }

    method SeedInputs(inp: seq<real>) returns (d: Assignment)
      requires |inp| == |inputVars|
      ensures d == InputsFrom(inp, map[], 0)
    {
      d := map[];
      var j := 0;
      while j < |inp|
        invariant 0 <= j <= |inp|
        invariant InputsFrom(inp, d, j) == InputsFrom(inp, map[], 0)
      {
        d := d[inputVars[j] := inp[j]];
        j := j + 1;
      }
    }

    method SeedFixed(d0: Assignment) returns (d: Assignment)
      ensures d == FixedFrom(d0, 0)
    {
      d := d0;
      var j := 0;
      while j < |lowerBounds|
        invariant 0 <= j <= |lowerBounds|
        invariant FixedFrom(d, j) == FixedFrom(d0, 0)
      {
        var (v, l) := lowerBounds[j];
        var u := Lookup(upperBounds, v);
        if u == Some(l) {
          d := d[v := l];
        }
        j := j + 1;
      }
    }

    // -------------------------------------------------------------------------
    // Propagation

    /** The variables a firing can assign: the terms of the EQ records and the outputs of relations. */
    function Mentioned(): set<Var>
      reads this
    {
      (set j, k | 0 <= j < |equList| && 0 <= k < |equList[j].adds| :: equList[j].adds[k].0)
      + (set j | 0 <= j < |constraints| :: constraints[j].vf)
    }

    /** The variables of a term list. */
    function VarsOf(adds: seq<(Var, real)>): set<Var>
    {
      set k | 0 <= k < |adds| :: adds[k].0
    }

    /** The EQ record `j` fixes `v`: `v` is one of its variables, all of them have values, and it holds exactly. */
    ghost predicate SolvedBy(j: int, v: Var, d: Assignment)
      reads this
    {
      && 0 <= j < |equList| && equList[j].equType == 0
      && v in VarsOf(equList[j].adds)
      && AllIn(equList[j].adds, d)
      && Weighted(equList[j].adds, d) == equList[j].scalar
    }

    /** The relation `j` fixes `v`: `v` is its output and equals `max(0, input)`. */
    ghost predicate RectifiedBy(j: int, v: Var, d: Assignment)
      reads this
    {
      && 0 <= j < |constraints| && constraints[j].vf == v
      && constraints[j].vb in d && v in d && d[v] == Max0(d[constraints[j].vb])
    }

    /** The rule `w` fixes `v`: the EQ record `w` when `w >= 0`, the relation `-w - 1` otherwise. */
    ghost predicate Because(w: int, v: Var, d: Assignment)
      reads this
    {
      if w >= 0 then SolvedBy(w, v, d) else RectifiedBy(-w - 1, v, d)
    }

    /** Starting from `d0`, `d` assigned only named variables, each new one by the rule `why` names. */
    ghost predicate DerivedWith(d0: Assignment, d: Assignment, why: map<Var, int>)
      reads this
    {
      && Extends(d, d0)
      && d.Keys <= d0.Keys + Mentioned()
      && d.Keys - d0.Keys <= why.Keys
      && forall v {:trigger why[v]} :: v in why && v in d && v !in d0 ==> Because(why[v], v, d)
    }

    /**
      * What propagation promises: every value of `d0` is kept, and every variable assigned
      * since is named by some record or relation, which it satisfies exactly: an EQ record
      * all of whose variables have values and whose sum equals its scalar, or a ReLU whose
      * output is `max(0, input)`.
      */
    ghost predicate Derived(d0: Assignment, d: Assignment)
      reads this
    {
      exists why :: DerivedWith(d0, d, why)
    }

    /** No rule can fire: no EQ record has exactly one unknown, no relation a known input and an unknown output. */
    predicate Stuck(d: Assignment)
      reads this
    {
      && (forall j :: 0 <= j < |equList| && equList[j].equType == 0 ==> |Unknowns(equList[j].adds, d)| != 1)
      && (forall j :: 0 <= j < |constraints| ==> !(constraints[j].vb in d && constraints[j].vf !in d))
    }

    /** Some EQ record has a zero coefficient, the only way back-substitution can divide by zero. */
    predicate HasZeroCoefficient()
      reads this
    {
      exists j, k :: 0 <= j < |equList| && equList[j].equType == 0 && 0 <= k < |equList[j].adds| && equList[j].adds[k].1 == 0.0
    }

    /** Some relation is not a ReLU. */
    predicate HasForeignRelation()
      reads this
    {
      exists j :: 0 <= j < |constraints| && constraints[j].tag != "relu"
    }

    /** A new variable fixed by rule `w` in the grown assignment `e'`, the others as before. */
    lemma Grows(d0: Assignment, e: Assignment, why: map<Var, int>, v: Var, x: real, w: int)
      requires DerivedWith(d0, e, why) && v !in e && v in Mentioned()
      requires Because(w, v, e[v := x])
      ensures DerivedWith(d0, e[v := x], why[v := w])
    {
      var e' := e[v := x];
      forall u | u in why[v := w] && u in e' && u !in d0 ensures Because(why[v := w][u], u, e') {
        if u != v {
          assert u in e;
          if why[u] >= 0 {
            SumFrame(equList[why[u]].adds, e, e');
          }
        }
      }
    }

    /** One back-substitution: the EQ record `j` has the single unknown `(nv, nc)`, at position `k`. */
    lemma BackSubstitution(d0: Assignment, e: Assignment, why: map<Var, int>, j: int, k: int, nv: Var, nc: real, x: real)
      requires DerivedWith(d0, e, why) && 0 <= j < |equList| && equList[j].equType == 0
      requires Unknowns(equList[j].adds, e) == [(nv, nc)] && nc != 0.0
      requires forall i :: 0 <= i < |equList[j].adds| && equList[j].adds[i].0 != nv ==> equList[j].adds[i].0 in e
      requires 0 <= k < |equList[j].adds| && equList[j].adds[k] == (nv, nc)
      requires x == -(SumExcept(equList[j].adds, e, nv) - equList[j].scalar) / nc
      ensures DerivedWith(d0, e[nv := x], why[nv := j]) && Extends(e[nv := x], e) && e.Keys < e[nv := x].Keys
    {
      var adds := equList[j].adds;
      SumSplit(adds, e, nv, nc, x);
      assert nv in VarsOf(adds);
      assert SolvedBy(j, nv, e[nv := x]);
      assert nv in Mentioned();
      Grows(d0, e, why, nv, x, j);
    }

    /** One ReLU firing of the relation `j`. */
    lemma Rectification(d0: Assignment, e: Assignment, why: map<Var, int>, j: int)
      requires DerivedWith(d0, e, why) && 0 <= j < |constraints|
      requires constraints[j].vb in e && constraints[j].vf !in e
      ensures DerivedWith(d0, e[constraints[j].vf := Max0(e[constraints[j].vb])], why[constraints[j].vf := -j - 1])
      ensures Extends(e[constraints[j].vf := Max0(e[constraints[j].vb])], e)
      ensures e.Keys < e[constraints[j].vf := Max0(e[constraints[j].vb])].Keys
    {
      var v := constraints[j].vf;
      var x := Max0(e[constraints[j].vb]);
      assert RectifiedBy(j, v, e[v := x]);
      assert v in Mentioned();
      Grows(d0, e, why, v, x, -j - 1);
    }

    /** The loop body of the EQ pass for record `j`. */
    method EqFire(ghost d0: Assignment, e: Assignment, ghost why: map<Var, int>, j: int)
      returns (r: Result<(Assignment, bool), Fault>, ghost why': map<Var, int>)
      requires DerivedWith(d0, e, why) && 0 <= j < |equList|
      ensures r.Fail? ==> r.error == DegenerateEquation && HasZeroCoefficient()
      ensures r.Ok? ==> DerivedWith(d0, r.value.0, why') && Extends(r.value.0, e)
      ensures r.Ok? && r.value.1 ==> e.Keys < r.value.0.Keys
      ensures r.Ok? && !r.value.1 ==>
                r.value.0 == e && (equList[j].equType == 0 ==> |Unknowns(equList[j].adds, e)| != 1)
    {
      var Record(equType, scalar, adds) := equList[j];
      if equType != 0 {
        return Ok((e, false)), why;
      }
      var newVars := Unknowns(adds, e);
      if |newVars| != 1 {
        return Ok((e, false)), why;
      }
      var (nv, nc) := newVars[0];
      assert newVars[0] in adds;
      var k :| 0 <= k < |adds| && adds[k] == newVars[0];
      if nc == 0.0 {
        assert equList[j].adds[k].1 == 0.0;
        return Fail(DegenerateEquation), why;
      }
      assert newVars == [(nv, nc)];
      OnlyUnknown(adds, e, nv, nc);
      var x := -(SumExcept(adds, e, nv) - scalar) / nc;
      BackSubstitution(d0, e, why, j, k, nv, nc, x);
      return Ok((e[nv := x], true)), why[nv := j];
    }

    /** The pass over the EQ records: each with exactly one unknown assigns it by back-substitution. */
    method EqPass(ghost d0: Assignment, d: Assignment, ghost why: map<Var, int>)
      returns (r: Result<(Assignment, bool), Fault>, ghost why': map<Var, int>)
      requires DerivedWith(d0, d, why)
      ensures r.Fail? ==> r.error == DegenerateEquation && HasZeroCoefficient()
      ensures r.Ok? ==> DerivedWith(d0, r.value.0, why') && Extends(r.value.0, d)
      ensures r.Ok? && r.value.1 ==> d.Keys < r.value.0.Keys
      ensures r.Ok? && !r.value.1 ==>
                r.value.0 == d && forall j :: 0 <= j < |equList| && equList[j].equType == 0 ==> |Unknowns(equList[j].adds, d)| != 1
    {
      var e := d;
      why' := why;
      var fired := false;
      var j := 0;
      while j < |equList|
        invariant 0 <= j <= |equList|
        invariant DerivedWith(d0, e, why') && Extends(e, d)
        invariant fired ==> d.Keys < e.Keys
        invariant !fired ==> e == d && forall i :: 0 <= i < j && equList[i].equType == 0 ==> |Unknowns(equList[i].adds, d)| != 1
      {
        var s, w := EqFire(d0, e, why', j);
        if s.Fail? {
          return Fail(s.error), why';
        }
        e, why' := s.value.0, w;
        fired := fired || s.value.1;
        j := j + 1;
      }
      return Ok((e, fired)), why';
    }

    /** The pass over the relations: each ReLU with a known input and an unknown output assigns it. */
    method ReluPass(ghost d0: Assignment, d: Assignment, ghost why: map<Var, int>)
      returns (r: Result<(Assignment, bool), Fault>, ghost why': map<Var, int>)
      requires DerivedWith(d0, d, why)
      ensures r.Fail? ==> r.error == UnsupportedConstraint && HasForeignRelation()
      ensures r.Ok? ==> !HasForeignRelation() && DerivedWith(d0, r.value.0, why') && Extends(r.value.0, d)
      ensures r.Ok? && r.value.1 ==> d.Keys < r.value.0.Keys
      ensures r.Ok? && !r.value.1 ==>
                r.value.0 == d && forall j :: 0 <= j < |constraints| ==> !(constraints[j].vb in d && constraints[j].vf !in d)
    {
      var e := d;
      why' := why;
      var fired := false;
      var j := 0;
      while j < |constraints|
        invariant 0 <= j <= |constraints|
        invariant DerivedWith(d0, e, why') && Extends(e, d)
        invariant forall i :: 0 <= i < j ==> constraints[i].tag == "relu"
        invariant fired ==> d.Keys < e.Keys
        invariant !fired ==> e == d
        invariant !fired ==> forall i :: 0 <= i < j ==> !(constraints[i].vb in d && constraints[i].vf !in d)
      {
        var s, w := ReluFire(d0, e, why', j);
        if s.Fail? {
          return Fail(s.error), why';
        }
        if s.value.1 {
          fired := true;
        } else if !fired {
          assert s.value.0 == e == d && !(constraints[j].vb in d && constraints[j].vf !in d);
        }
        e, why' := s.value.0, w;
        j := j + 1;
      }
      return Ok((e, fired)), why';
    }

    /** The loop body of the ReLU pass for relation `j`. */
    method ReluFire(ghost d0: Assignment, e: Assignment, ghost why: map<Var, int>, j: int)
      returns (r: Result<(Assignment, bool), Fault>, ghost why': map<Var, int>)
      requires DerivedWith(d0, e, why) && 0 <= j < |constraints|
      ensures r.Fail? ==> r.error == UnsupportedConstraint && constraints[j].tag != "relu"
      ensures r.Ok? ==> constraints[j].tag == "relu" && DerivedWith(d0, r.value.0, why') && Extends(r.value.0, e)
      ensures r.Ok? && r.value.1 ==> e.Keys < r.value.0.Keys
      ensures r.Ok? && !r.value.1 ==> r.value.0 == e && !(constraints[j].vb in e && constraints[j].vf !in e)
    {
      var Relation(tag, vb, vf) := constraints[j];
      if tag != "relu" {
        return Fail(UnsupportedConstraint), why;
      }
      if vb in e && vf !in e {
        Rectification(d0, e, why, j);
        return Ok((e[vf := Max0(e[vb])], true)), why[vf := -j - 1];
      }
      return Ok((e, false)), why;
    }

    /**
      * The fixed-point loop: EQ back-substitution first, ReLU only in a round where no EQ
      * record fired, until a round fires nothing. The loop ends because each firing round
      * assigns a variable that had no value and that some record or relation names: that is
      * the `decreases` measure, not a promise of the contract.
      */
    method Propagate(d0: Assignment) returns (r: Result<Assignment, Fault>)
      ensures r.Fail? ==>
                (r.error == DegenerateEquation && HasZeroCoefficient()) || (r.error == UnsupportedConstraint && HasForeignRelation())
      ensures r.Ok? ==> Derived(d0, r.value) && Stuck(r.value) && !HasForeignRelation()
    {
      var d := d0;
      ghost var why: map<Var, int> := map[];
      var stop := false;
      while !stop
        invariant DerivedWith(d0, d, why)
        invariant stop ==> Stuck(d) && !HasForeignRelation()
        decreases |(d0.Keys + Mentioned()) - d.Keys|, if stop then 0 else 1
      {
        var a, why1 := EqPass(d0, d, why);
        if a.Fail? {
          return Fail(a.error);
        }
        var (d1, fired) := a.value;
        if fired {
          ShrinkingRest(d0.Keys + Mentioned(), d.Keys, d1.Keys);
          d, why := d1, why1;
        } else {
          var b, why2 := ReluPass(d0, d, why);
          if b.Fail? {
            return Fail(b.error);
          }
          var (d2, fired2) := b.value;
          if fired2 {
            ShrinkingRest(d0.Keys + Mentioned(), d.Keys, d2.Keys);
            d, why := d2, why2;
          } else {
            stop := true;
          }
        }
      }
      return Ok(d);
    }

    /**
      * `forwardEvaluate(inp, validate, returnValidation)`: seed the inputs, then the fixed
      * variables, propagate, and validate when asked; a failed validation raises unless
      * `returnValidation` asks for `(valid, d)`.
      */
    method ForwardEvaluate(inp: seq<real>, validate: bool, returnValidation: bool) returns (r: Result<Evaluation, Fault>)
      ensures |inp| != |inputVars| ==> r == Fail(BadArgument)
      ensures r.Ok? ==> |inp| == |inputVars| && Derived(Seed(inp), r.value.d) && Stuck(r.value.d)
      ensures r.Ok? ==> (r.value.Checked? <==> validate && returnValidation)
      ensures r.Ok? && r.value.Checked? ==> (r.value.valid <==> Validate(Snapshot(), r.value.d, Epsilon) == Pass)
      ensures r.Ok? && r.value.Values? && validate ==> Validate(Snapshot(), r.value.d, Epsilon) == Pass
      ensures r.Fail? ==> || r.error == BadArgument
                          || (r.error == DegenerateEquation && HasZeroCoefficient())
                          || (r.error == UnsupportedConstraint && HasForeignRelation())
                          || (validate && r.error == IndexOutOfRange)
                          || (validate && !returnValidation && r.error == ValidationFailure)
    {
      if |inp| != |inputVars| {
        return Fail(BadArgument);
      }
      var d := SeedInputs(inp);
      d := SeedFixed(d);
      var p := Propagate(d);
      if p.Fail? {
        return Fail(p.error);
      }
      d := p.value;
      if validate {
        var valid := false;
        var v := Validate(Snapshot(), d, Epsilon);
        if v == Pass {
          valid := true;
        } else if v.error != ValidationFailure || !returnValidation {
          return Fail(v.error);
        }
        if returnValidation {
          return Ok(Checked(valid, d));
        }
      }
      return Ok(Values(d));
    }
  }

  // ---------------------------------------------------------------------------
  // validate

  /**
    * `validate(d)` of the evaluator with tables `t`: the number of assigned variables,
    * the bounds within `eps`, the records by their type, then the ReLU relations exactly.
    * A failed assertion is a ValidationFailure; a lookup of an unassigned variable raises
    * KeyError (IndexOutOfRange), which the caller does not catch.
    */
  function Validate(t: Tables, d: Assignment, eps: real): (r: Outcome<Fault>)
    ensures r == Pass <==>
              && |d| == t.numVars
              && CheckBounds(t.lowerBounds, d, eps, true) == Pass && CheckBounds(t.upperBounds, d, eps, false) == Pass
              && CheckRecords(t.equList, d, eps) == Pass && CheckRelations(t.constraints, d) == Pass
    ensures |d| != t.numVars ==> r == Failed(ValidationFailure)
    ensures r.Failed? ==> r.error == ValidationFailure || r.error == IndexOutOfRange
  {
    if |d| != t.numVars then Failed(ValidationFailure)
    else match CheckBounds(t.lowerBounds, d, eps, true)
      case Failed(e) => Failed(e)
      case Pass =>
        match CheckBounds(t.upperBounds, d, eps, false)
        case Failed(e) => Failed(e)
        case Pass =>
          match CheckRecords(t.equList, d, eps)
          case Failed(e) => Failed(e)
          case Pass => CheckRelations(t.constraints, d)
  }

  // ---------------------------------------------------------------------------
  // The checks of validate

  /** A value within `eps` of a lower (or an upper) bound. */
  predicate WithinBound(x: real, c: real, eps: real, lower: bool)
  {
    if lower then x >= c - eps else x <= c + eps
  }

  /** The bound loops of `validate`, item by item. */
  function CheckBounds(bs: Bounds, d: Assignment, eps: real, lower: bool): (r: Outcome<Fault>)
    ensures r == Pass <==> forall i :: 0 <= i < |bs| ==> bs[i].0 in d && WithinBound(d[bs[i].0], bs[i].1, eps, lower)
    ensures r.Failed? ==> r.error == ValidationFailure || (r.error == IndexOutOfRange && exists i :: 0 <= i < |bs| && bs[i].0 !in d)
  {
    if bs == [] then Pass
    else if bs[0].0 !in d then Failed(IndexOutOfRange)
    else if !WithinBound(d[bs[0].0], bs[0].1, eps, lower) then Failed(ValidationFailure)
    else
      var r := CheckBounds(bs[1..], d, eps, lower);
      assert forall i :: 1 <= i < |bs| ==> bs[i] == bs[1..][i - 1];
      r
  }

  /** What a record of each type asks of its residual `sum - scalar`. */
  predicate RecordHolds(equType: int, res: real, eps: real)
  {
    if equType == 0 then -eps < res < eps
    else if equType == 1 then res >= -eps
    else if equType == 2 then res <= eps
    else false
  }

  /** The record loop of `validate`. */
  function CheckRecords(rs: seq<Record>, d: Assignment, eps: real): (r: Outcome<Fault>)
    ensures r == Pass <==> forall i :: 0 <= i < |rs| ==>
              AllIn(rs[i].adds, d) && RecordHolds(rs[i].equType, Weighted(rs[i].adds, d) - rs[i].scalar, eps)
    ensures r.Failed? ==> r.error == ValidationFailure || (r.error == IndexOutOfRange && exists i :: 0 <= i < |rs| && !AllIn(rs[i].adds, d))
  {
    if rs == [] then Pass
    else if !AllIn(rs[0].adds, d) then Failed(IndexOutOfRange)
    else if !RecordHolds(rs[0].equType, Weighted(rs[0].adds, d) - rs[0].scalar, eps) then Failed(ValidationFailure)
    else
      var r := CheckRecords(rs[1..], d, eps);
      assert forall i :: 1 <= i < |rs| ==> rs[i] == rs[1..][i - 1];
      r
  }

  /** The relation loop of `validate`. */
  function CheckRelations(cs: seq<Relation>, d: Assignment): (r: Outcome<Fault>)
    ensures r == Pass <==> forall i :: 0 <= i < |cs| ==>
              cs[i].tag == "relu" && cs[i].vf in d && cs[i].vb in d && d[cs[i].vf] == Max0(d[cs[i].vb])
    ensures r.Failed? ==> r.error == ValidationFailure || (r.error == IndexOutOfRange && exists i :: 0 <= i < |cs| && (cs[i].vf !in d || cs[i].vb !in d))
  {
    if cs == [] then Pass
    else if cs[0].tag != "relu" then Failed(ValidationFailure)
    else if cs[0].vf !in d || cs[0].vb !in d then Failed(IndexOutOfRange)
    else if d[cs[0].vf] != Max0(d[cs[0].vb]) then Failed(ValidationFailure)
    else
      var r := CheckRelations(cs[1..], d);
      assert forall i :: 1 <= i < |cs| ==> cs[i] == cs[1..][i - 1];
      r
  }

  // ---------------------------------------------------------------------------
  // Helper facts about sums

  /** A sum reads only the values of its own variables. */
  lemma {:induction false} SumFrame(adds: seq<(Var, real)>, d: Assignment, d2: Assignment)
    requires AllIn(adds, d) && Extends(d2, d)
    ensures AllIn(adds, d2) && Weighted(adds, d2) == Weighted(adds, d)
    decreases |adds|
  {
    if adds != [] {
      SumFrame(adds[1..], d, d2);
    }
  }

  /** With a single unknown `(nv, nc)`, every other term names a known variable other than `nv`. */
  lemma {:induction false} OnlyUnknown(adds: seq<(Var, real)>, d: Assignment, nv: Var, nc: real)
    requires Unknowns(adds, d) == [(nv, nc)]
    ensures forall k :: 0 <= k < |adds| && adds[k].0 != nv ==> adds[k].0 in d
    decreases |adds|
  {
    if adds != [] {
      if adds[0].0 in d {
        OnlyUnknown(adds[1..], d, nv, nc);
      } else {
        assert Unknowns(adds[1..], d) == [];
      }
      forall k | 1 <= k < |adds| ensures adds[k] == adds[1..][k - 1] { }
    }
  }

  /** Assigning the single unknown `nv` the value `x` makes the sum the known part plus `nc * x`. */
  lemma {:induction false} SumSplit(adds: seq<(Var, real)>, d: Assignment, nv: Var, nc: real, x: real)
    requires Unknowns(adds, d) == [(nv, nc)]
    requires forall k :: 0 <= k < |adds| && adds[k].0 != nv ==> adds[k].0 in d
    ensures AllIn(adds, d[nv := x])
    ensures Weighted(adds, d[nv := x]) == SumExcept(adds, d, nv) + nc * x
    decreases |adds|
  {
    assert forall k :: 1 <= k < |adds| ==> adds[k] == adds[1..][k - 1];
    if adds[0].0 in d {
      SumSplit(adds[1..], d, nv, nc, x);
    } else {
      assert adds[0] == (nv, nc);
      KnownSum(adds[1..], d, nv, x);
    }
  }

  /** With no unknown left, assigning an unknown variable changes neither sum. */
  lemma {:induction false} KnownSum(adds: seq<(Var, real)>, d: Assignment, nv: Var, x: real)
    requires Unknowns(adds, d) == [] && nv !in d
    ensures AllIn(adds, d[nv := x])
    ensures Weighted(adds, d[nv := x]) == SumExcept(adds, d, nv)
    decreases |adds|
  {
    if adds != [] {
      assert adds[0].0 in d;
      KnownSum(adds[1..], d, nv, x);
      assert forall k :: 1 <= k < |adds| ==> adds[k] == adds[1..][k - 1];
    }
  }

  /** A firing shrinks the set of variables still to be assigned. */
  lemma ShrinkingRest(M: set<Var>, K: set<Var>, K': set<Var>)
    requires K < K' && K' <= M
    ensures |M - K'| < |M - K|
  {
    var x :| x in K' && x !in K;
    var S, T := M - K', M - K;
    assert T == S + (T - S);
    assert S * (T - S) == {};
    assert x in T - S;
  }
}
