/**
  * What the lowering of `export_evaluate` means: the two halves of `translate` invert
  * each other, lowering succeeds exactly when every reference stays inside the view, the
  * bounds of a variable are the bounds of its node, and an assignment of values to the
  * nodes that satisfies the network and the view's equations passes `validate`.
  */
module EvaluateFacts {
  import opened Wrappers
  import opened Nodes
  import opened Equations
  import opened Compare
  import opened Evaluate

  // ---------------------------------------------------------------------------
  // translate

  /** `translate[translate[n]] == n` for each node of the view, and the same for each variable. */
  lemma TranslateRoundTrip(nl: seq<Handle>)
    ensures forall h :: h in ToVar(nl) <==> h in nl
    ensures forall h :: h in nl ==> ToVar(nl)[h] in ToNode(nl) && ToNode(nl)[ToVar(nl)[h]] == h
    ensures forall i :: i in ToNode(nl) ==> ToNode(nl)[i] in ToVar(nl) && ToVar(nl)[ToNode(nl)[i]] == i
  {
    forall i | i in ToNode(nl) ensures ToVar(nl)[ToNode(nl)[i]] == i {
      FirstPosition(nl, i);
    }
  }

  /** Every variable is a position of the view: `numVars` bounds every variable `translate` hands out. */
  lemma VariablesInRange(nl: seq<Handle>)
    ensures forall h :: h in nl ==> ToVar(nl)[h] < |nl|
    ensures forall i :: i in ToNode(nl) ==> i < |nl|
  {
  }

  // ---------------------------------------------------------------------------
  // Values of nodes as values of variables

  /** The assignment that gives each variable the value `x` gives its node. */
  function Denote(nl: seq<Handle>, x: Handle -> real): Assignment
  {
    map i | 0 <= i < |nl| :: x(nl[i])
  }

  /** `{0, ..., n - 1}`, which has `n` members. */
  function Positions(n: nat): (r: set<int>)
    ensures forall i :: i in r <==> 0 <= i < n
    ensures |r| == n
  {
    if n == 0 then {} else Positions(n - 1) + {n - 1}
  }

  /** `validate` counts exactly one value per position of the view. */
  lemma DenoteSize(nl: seq<Handle>, x: Handle -> real)
    ensures |Denote(nl, x)| == |nl|
  {
    assert Denote(nl, x).Keys == Positions(|nl|);
  }

  /** The lowered terms of `ts`, weighed under `Denote`, are the left-hand side of `ts` under `x`. */
  lemma {:induction false} WeightedDenotes(nl: seq<Handle>, ts: seq<Term>, x: Handle -> real)
    requires forall i :: 0 <= i < |ts| ==> ts[i].1 in nl
    ensures AllIn(Terms(nl, ts).value, Denote(nl, x))
    ensures Weighted(Terms(nl, ts).value, Denote(nl, x)) == Lhs(ts, x)
  {
    var adds := Terms(nl, ts).value;
    if ts != [] {
      WeightedDenotes(nl, ts[1..], x);
      assert adds[1..] == Terms(nl, ts[1..]).value;
      var j := IndexOf(nl, ts[0].1).value;
      assert adds[0] == (j, ts[0].0);
      assert Denote(nl, x)[j] == x(ts[0].1);
    }
  }

  /** The weighted sum of a list with one more term. */
  lemma {:induction false} WeightedAppend(adds: seq<(Var, real)>, p: (Var, real), d: Assignment)
    requires AllIn(adds, d) && p.0 in d
    ensures AllIn(adds + [p], d)
    ensures Weighted(adds + [p], d) == Weighted(adds, d) + d[p.0] * p.1
  {
    if adds != [] {
      assert (adds + [p])[1..] == adds[1..] + [p];
      WeightedAppend(adds[1..], p, d);
    } else {
      assert [p][1..] == [];
    }
  }

  /**
    * The EQ record of a sum node `h`, `(0, -scalar, terms + [(h, -1)])`, holds exactly
    * under `Denote` when the value of `h` is the weighted sum of its inputs plus its scalar.
    */
  lemma SumRecordMeaning(nl: seq<Handle>, h: Handle, ts: seq<Term>, s: real, x: Handle -> real)
    requires h in nl && forall i :: 0 <= i < |ts| ==> ts[i].1 in nl
    ensures var adds := Terms(nl, ts).value + [(IndexOf(nl, h).value, -1.0)];
            AllIn(adds, Denote(nl, x)) && (Weighted(adds, Denote(nl, x)) == -s <==> x(h) == Lhs(ts, x) + s)
  {
    WeightedDenotes(nl, ts, x);
    WeightedAppend(Terms(nl, ts).value, (IndexOf(nl, h).value, -1.0), Denote(nl, x));
  }

  // ---------------------------------------------------------------------------
  // When lowering succeeds

  /** The node `h` lowers: it is not an Abs node, and every node it reads is in the view. */
  predicate NodeLowers(A: seq<Node>, nl: seq<Handle>, h: Handle)
  {
    h < |A| && !A[h].kind.Abs? && forall y :: y in ConnectedTo(A[h].kind) ==> y in nl
  }

  /** The node `h` is an Abs node of the arena. */
  predicate IsAbs(A: seq<Node>, h: Handle)
  {
    h < |A| && A[h].kind.Abs?
  }

  /** Every term of every equation from position `j` on names a node of the view. */
  predicate EquationsLower(nl: seq<Handle>, eqs: seq<Constraint>, j: nat)
  {
    forall q, i :: j <= q < |eqs| && 0 <= i < |eqs[q].terms| ==> eqs[q].terms[i].1 in nl
  }

  /** The fields a node step does not touch. */
  predicate SameFrame(t: Tables, r: Tables)
  {
    && r.toVar == t.toVar && r.toNode == t.toNode && r.numVars == t.numVars
    && r.inputVars == t.inputVars && r.outputVars == t.outputVars
  }

  /** One node lowers exactly when it is not an Abs node and reads only nodes of the view. */
  lemma NodeStepOutcome(A: seq<Node>, nl: seq<Handle>, h: Handle, t: Tables)
    requires h in nl && h < |A|
    ensures NodeStep(A, nl, h, t).Ok? <==> NodeLowers(A, nl, h)
    ensures NodeStep(A, nl, h, t).Fail? ==>
              NodeStep(A, nl, h, t).error == if A[h].kind.Abs? then UnsupportedTopology else IndexOutOfRange
    ensures NodeStep(A, nl, h, t).Ok? ==> SameFrame(t, NodeStep(A, nl, h, t).value)
  {
    if A[h].kind.Sum? {
      var ts := A[h].kind.inputs;
      assert forall y :: y in ConnectedTo(A[h].kind) <==> exists i :: 0 <= i < |ts| && ts[i].1 == y;
    }
  }

  /** The node loop from `j` on succeeds exactly when each of the remaining nodes lowers. */
  lemma {:induction false} LowerNodesOutcome(A: seq<Node>, nl: seq<Handle>, j: nat, t: Tables)
    requires j <= |nl| && forall h :: h in nl ==> h < |A|
    ensures LowerNodes(A, nl, j, t).Ok? <==> forall k :: j <= k < |nl| ==> NodeLowers(A, nl, nl[k])
    ensures LowerNodes(A, nl, j, t).Fail? ==>
              || LowerNodes(A, nl, j, t).error == IndexOutOfRange
              || (LowerNodes(A, nl, j, t).error == UnsupportedTopology && exists k :: j <= k < |nl| && IsAbs(A, nl[k]))
    ensures LowerNodes(A, nl, j, t).Ok? ==> SameFrame(t, LowerNodes(A, nl, j, t).value)
    decreases |nl| - j
  {
    if j < |nl| {
      NodeStepOutcome(A, nl, nl[j], t);
      var s := NodeStep(A, nl, nl[j], t);
      if s.Ok? {
        assert LowerNodes(A, nl, j, t) == LowerNodes(A, nl, j + 1, s.value);
        LowerNodesOutcome(A, nl, j + 1, s.value);
      } else {
        assert LowerNodes(A, nl, j, t) == Fail(s.error);
        assert !NodeLowers(A, nl, nl[j]);
        if s.error == UnsupportedTopology {
          assert IsAbs(A, nl[j]);
        }
      }
    }
  }

  /** The record `export_evaluate` makes of an equation. */
  function EquationRecord(nl: seq<Handle>, c: Constraint): Record
    requires forall i :: 0 <= i < |c.terms| ==> c.terms[i].1 in nl
  {
    Record(Code(c.comparator), c.scalar, Terms(nl, c.terms).value)
  }

  /**
    * The equation loop from `j` on succeeds exactly when every term names a node of the
    * view, and then appends one record per equation, in order, and touches nothing else.
    */
  lemma {:induction false} LowerEquationsOutcome(nl: seq<Handle>, eqs: seq<Constraint>, j: nat, t: Tables)
    requires j <= |eqs|
    ensures LowerEquations(nl, eqs, j, t).Ok? <==> EquationsLower(nl, eqs, j)
    ensures LowerEquations(nl, eqs, j, t).Fail? ==> LowerEquations(nl, eqs, j, t).error == IndexOutOfRange
    ensures LowerEquations(nl, eqs, j, t).Ok? ==>
              var r := LowerEquations(nl, eqs, j, t).value;
              && SameFrame(t, r) && r.lowerBounds == t.lowerBounds && r.upperBounds == t.upperBounds
              && r.constraints == t.constraints
              && |r.equList| == |t.equList| + |eqs| - j && r.equList[..|t.equList|] == t.equList
              && forall q :: j <= q < |eqs| ==> r.equList[|t.equList| + q - j] == EquationRecord(nl, eqs[q])
    decreases |eqs| - j
  {
    if j < |eqs| {
      var a := Terms(nl, eqs[j].terms);
      if a.Ok? {
        var t' := t.(equList := t.equList + [Record(Code(eqs[j].comparator), eqs[j].scalar, a.value)]);
        LowerEquationsOutcome(nl, eqs, j + 1, t');
        if LowerEquations(nl, eqs, j, t).Ok? {
          var r := LowerEquations(nl, eqs, j, t).value;
          assert r.equList[..|t'.equList|] == t'.equList;
          assert r.equList[..|t.equList|] == t'.equList[..|t.equList|];
        }
      }
    }
  }

  /**
    * `export_evaluate` succeeds exactly when the inputs, the outputs, every node a node of
    * the view reads and every node an equation names are in the view and no node is an Abs
    * node. Then there is one variable per position, the inputs and outputs are the
    * variables of the input and output nodes, and `translate` is the pair of tables.
    */
  lemma LoweringOutcome(A: seq<Node>, nl: seq<Handle>, inputs: seq<Handle>, outputs: seq<Handle>, eqs: seq<Constraint>)
    requires forall h :: h in nl ==> h < |A|
    ensures var s := Lowering(A, nl, inputs, outputs, eqs);
            && (s.Ok? <==> && (forall h :: h in inputs + outputs ==> h in nl)
                           && (forall h :: h in nl ==> NodeLowers(A, nl, h))
                           && EquationsLower(nl, eqs, 0))
            && (s.Fail? ==> s.error == IndexOutOfRange || (s.error == UnsupportedTopology && exists h :: h in nl && IsAbs(A, h)))
            && (s.Ok? ==> && s.value.numVars == |nl| && s.value.toVar == ToVar(nl) && s.value.toNode == ToNode(nl)
                          && |s.value.inputVars| == |inputs| && |s.value.outputVars| == |outputs|
                          && (forall i :: 0 <= i < |inputs| ==> s.value.inputVars[i] == ToVar(nl)[inputs[i]])
                          && (forall i :: 0 <= i < |outputs| ==> s.value.outputVars[i] == ToVar(nl)[outputs[i]]))
  {
    var iv := Vars(nl, inputs);
    var ov := Vars(nl, outputs);
    assert iv.Ok? && ov.Ok? <==> forall h :: h in inputs + outputs ==> h in nl by {
      assert forall h :: h in inputs + outputs <==> h in inputs || h in outputs;
    }
    if iv.Ok? && ov.Ok? {
      var t0 := Tables(map[], map[], |nl|, iv.value, ov.value, [], [], [], []);
      LowerNodesOutcome(A, nl, 0, t0);
      assert (forall k :: 0 <= k < |nl| ==> NodeLowers(A, nl, nl[k])) <==> forall h :: h in nl ==> NodeLowers(A, nl, h);
      var n := LowerNodes(A, nl, 0, t0);
      if n.Ok? {
        LowerEquationsOutcome(nl, eqs, 0, n.value);
      } else if n.error == UnsupportedTopology {
        var k :| 0 <= k < |nl| && IsAbs(A, nl[k]);
        assert nl[k] in nl;
      }
    }
  }

  // ---------------------------------------------------------------------------
  // A consistent assignment passes validate

  /** What a node of each class says about the values of the nodes: a sum, a rectifier, an absolute value. */
  predicate NodeHolds(k: Kind, h: Handle, x: Handle -> real)
  {
    match k
    case Plain => true
    case Sum(ts, s) => x(h) == Lhs(ts, x) + s
    case ReLU(y, _) => x(h) == Max0(x(y))
    case Abs(y) => x(h) == if x(y) >= 0.0 then x(y) else -x(y)
  }

  /** `x` gives every node of the view a value within its limit that its node's function agrees with. */
  predicate Consistent(A: seq<Node>, nl: seq<Handle>, x: Handle -> real)
  {
    forall h :: h in nl ==> h < |A| && Contains(A[h].limit, x(h)) && NodeHolds(A[h].kind, h, x)
  }

  /** Every check of `validate` but the count passes. */
  predicate TablesHold(t: Tables, d: Assignment, eps: real)
  {
    && CheckBounds(t.lowerBounds, d, eps, true) == Pass
    && CheckBounds(t.upperBounds, d, eps, false) == Pass
    && CheckRecords(t.equList, d, eps) == Pass
    && CheckRelations(t.constraints, d) == Pass
  }

  /** The items of a dict after `d[k] = c` are old items or `(k, c)`. */
  lemma {:induction false} StoreItems(bs: Bounds, k: Var, c: real)
    ensures forall p :: p in Store(bs, k, c) ==> p in bs || p == (k, c)
  {
    if bs != [] && bs[0].0 != k {
      StoreItems(bs[1..], k, c);
    }
  }

  /** Storing a bound the assignment keeps keeps the bound check passing. */
  lemma BoundsStore(bs: Bounds, k: Var, c: real, d: Assignment, eps: real, lower: bool)
    requires CheckBounds(bs, d, eps, lower) == Pass && k in d && WithinBound(d[k], c, eps, lower)
    ensures CheckBounds(Store(bs, k, c), d, eps, lower) == Pass
  {
    var r := Store(bs, k, c);
    StoreItems(bs, k, c);
    forall i | 0 <= i < |r| ensures r[i].0 in d && WithinBound(d[r[i].0], r[i].1, eps, lower) {
      assert r[i] in r;
      if r[i] != (k, c) {
        var j :| 0 <= j < |bs| && bs[j] == r[i];
      }
    }
  }

  /** One more record that holds keeps the record check passing. */
  lemma RecordsAppend(rs: seq<Record>, rec: Record, d: Assignment, eps: real)
    requires CheckRecords(rs, d, eps) == Pass
    requires AllIn(rec.adds, d) && RecordHolds(rec.equType, Weighted(rec.adds, d) - rec.scalar, eps)
    ensures CheckRecords(rs + [rec], d, eps) == Pass
  {
    assert forall i :: 0 <= i < |rs| ==> (rs + [rec])[i] == rs[i];
  }

  /** One more relation that holds keeps the relation check passing. */
  lemma RelationsAppend(cs: seq<Relation>, c: Relation, d: Assignment)
    requires CheckRelations(cs, d) == Pass
    requires c.tag == "relu" && c.vf in d && c.vb in d && d[c.vf] == Max0(d[c.vb])
    ensures CheckRelations(cs + [c], d) == Pass
  {
    assert forall i :: 0 <= i < |cs| ==> (cs + [c])[i] == cs[i];
  }

  /** The tables of one lowered node hold under `Denote` when the node's value agrees with its limit and function. */
  lemma NodeStepSound(A: seq<Node>, nl: seq<Handle>, h: Handle, t: Tables, x: Handle -> real, eps: real)
    requires h in nl && h < |A| && NodeStep(A, nl, h, t).Ok? && eps > 0.0
    requires Contains(A[h].limit, x(h)) && NodeHolds(A[h].kind, h, x)
    requires TablesHold(t, Denote(nl, x), eps)
    ensures TablesHold(NodeStep(A, nl, h, t).value, Denote(nl, x), eps)
  {
    var D := Denote(nl, x);
    var i := IndexOf(nl, h).value;
    var t1 := Limited(A, nl, h, t);
    LimitedSound(A, nl, h, t, x, eps);
    match A[h].kind {
      case Sum(ts, s) =>
        var rec := Record(0, -s, Terms(nl, ts).value + [(i, -1.0)]);
        assert NodeStep(A, nl, h, t).value == t1.(equList := t1.equList + [rec]);
        SumRecordMeaning(nl, h, ts, s, x);
        RecordsAppend(t1.equList, rec, D, eps);
      case ReLU(y, _) =>
        var yi := IndexOf(nl, y).value;
        assert NodeStep(A, nl, h, t).value == t1.(constraints := t1.constraints + [Relation("relu", yi, i)]);
        assert D[yi] == x(y) && D[i] == x(h);
        RelationsAppend(t1.constraints, Relation("relu", yi, i), D);
      case Plain =>
        assert NodeStep(A, nl, h, t).value == t1;
      case Abs(_) =>
    }
  }

  /** The tables of `NodeStep` before its record or relation: the node's limit stored as bounds. */
  function Limited(A: seq<Node>, nl: seq<Handle>, h: Handle, t: Tables): Tables
    requires h in nl && h < |A|
  {
    var i := IndexOf(nl, h).value;
    var n := A[h];
    t.(lowerBounds := if n.limit.lower.Some? then Store(t.lowerBounds, i, n.limit.lower.value) else t.lowerBounds,
       upperBounds := if n.limit.upper.Some? then Store(t.upperBounds, i, n.limit.upper.value) else t.upperBounds)
  }

  /** Storing the bounds of a limit that holds keeps the tables holding. */
  lemma LimitedSound(A: seq<Node>, nl: seq<Handle>, h: Handle, t: Tables, x: Handle -> real, eps: real)
    requires h in nl && h < |A| && eps > 0.0 && Contains(A[h].limit, x(h))
    requires TablesHold(t, Denote(nl, x), eps)
    ensures TablesHold(Limited(A, nl, h, t), Denote(nl, x), eps)
  {
    var D := Denote(nl, x);
    var i := IndexOf(nl, h).value;
    var n := A[h];
    assert D[i] == x(h);
    if n.limit.lower.Some? {
      BoundsStore(t.lowerBounds, i, n.limit.lower.value, D, eps, true);
    }
    if n.limit.upper.Some? {
      BoundsStore(t.upperBounds, i, n.limit.upper.value, D, eps, false);
    }
  }

  /** The node loop keeps the tables holding under the values of a consistent assignment. */
  lemma {:induction false} LowerNodesSound(A: seq<Node>, nl: seq<Handle>, j: nat, t: Tables, x: Handle -> real, eps: real)
    requires j <= |nl| && (forall h :: h in nl ==> h < |A|) && LowerNodes(A, nl, j, t).Ok? && eps > 0.0
    requires Consistent(A, nl, x) && TablesHold(t, Denote(nl, x), eps)
    ensures TablesHold(LowerNodes(A, nl, j, t).value, Denote(nl, x), eps)
    decreases |nl| - j
  {
    if j < |nl| {
      var s := NodeStep(A, nl, nl[j], t);
      assert LowerNodes(A, nl, j, t) == LowerNodes(A, nl, j + 1, s.value);
      NodeStepSound(A, nl, nl[j], t, x, eps);
      LowerNodesSound(A, nl, j + 1, s.value, x, eps);
    }
  }

  /** The record of an equation that holds under `x` passes its check under `Denote`. */
  lemma EquationRecordSound(nl: seq<Handle>, c: Constraint, x: Handle -> real, eps: real)
    requires forall i :: 0 <= i < |c.terms| ==> c.terms[i].1 in nl
    requires Holds(c.terms, c.comparator, c.scalar, x) && eps > 0.0
    ensures var rec := EquationRecord(nl, c);
            AllIn(rec.adds, Denote(nl, x)) && RecordHolds(rec.equType, Weighted(rec.adds, Denote(nl, x)) - rec.scalar, eps)
  {
    WeightedDenotes(nl, c.terms, x);
  }

  /** The equation loop keeps the tables holding when the remaining equations hold under `x`. */
  lemma {:induction false} LowerEquationsSound(nl: seq<Handle>, eqs: seq<Constraint>, j: nat, t: Tables, x: Handle -> real, eps: real)
    requires j <= |eqs| && LowerEquations(nl, eqs, j, t).Ok? && eps > 0.0
    requires AllHold(eqs, x) && TablesHold(t, Denote(nl, x), eps)
    ensures TablesHold(LowerEquations(nl, eqs, j, t).value, Denote(nl, x), eps)
    decreases |eqs| - j
  {
    if j < |eqs| {
      LowerEquationsOutcome(nl, eqs, j, t);
      var rec := EquationRecord(nl, eqs[j]);
      var t' := t.(equList := t.equList + [rec]);
      assert LowerEquations(nl, eqs, j, t) == LowerEquations(nl, eqs, j + 1, t');
      EquationRecordSound(nl, eqs[j], x, eps);
      RecordsAppend(t.equList, rec, Denote(nl, x), eps);
      LowerEquationsSound(nl, eqs, j + 1, t', x, eps);
    }
  }

  /**
    * Soundness of `validate`: when the view lowers, every node of the view has a value
    * within its limit that its function agrees with, and every equation of the view holds,
    * the values of the nodes, numbered as `export_evaluate` numbers them, pass `validate`.
    */
  lemma ValidateSound(A: seq<Node>, nl: seq<Handle>, inputs: seq<Handle>, outputs: seq<Handle>, eqs: seq<Constraint>,
                      x: Handle -> real, eps: real)
    requires (forall h :: h in nl ==> h < |A|) && Lowering(A, nl, inputs, outputs, eqs).Ok? && eps > 0.0
    requires Consistent(A, nl, x) && AllHold(eqs, x)
    ensures Validate(Lowering(A, nl, inputs, outputs, eqs).value, Denote(nl, x), eps) == Pass
  {
    var iv := Vars(nl, inputs).value;
    var ov := Vars(nl, outputs).value;
    var t0 := Tables(map[], map[], |nl|, iv, ov, [], [], [], []);
    var t1 := LowerNodes(A, nl, 0, t0).value;
    LowerNodesSound(A, nl, 0, t0, x, eps);
    LowerEquationsSound(nl, eqs, 0, t1, x, eps);
    LowerNodesOutcome(A, nl, 0, t0);
    LowerEquationsOutcome(nl, eqs, 0, t1);
    DenoteSize(nl, x);
  }

  // ---------------------------------------------------------------------------
  // Bounds

  /** The lower (or the upper) bound of the node `h`. */
  function BoundOf(A: seq<Node>, h: Handle, lower: bool): Option<real>
  {
    if h >= |A| then None else if lower then A[h].limit.lower else A[h].limit.upper
  }

  /** The lower (or the upper) bound table. */
  function BoundsOf(t: Tables, lower: bool): Bounds
  {
    if lower then t.lowerBounds else t.upperBounds
  }

  /** No key occurs twice among the items of a dict. */
  predicate UniqueKeys(bs: Bounds)
  {
    forall i, j :: 0 <= i < j < |bs| ==> bs[i].0 != bs[j].0
  }

  /** `d[k] = c` keeps the keys of a dict unique. */
  lemma {:induction false} StoreUnique(bs: Bounds, k: Var, c: real)
    requires UniqueKeys(bs)
    ensures UniqueKeys(Store(bs, k, c))
  {
    if bs != [] && bs[0].0 != k {
      StoreUnique(bs[1..], k, c);
      StoreItems(bs[1..], k, c);
      var r := Store(bs, k, c);
      forall i, j | 0 <= i < j < |r| ensures r[i].0 != r[j].0 {
        if i == 0 {
          assert r[j] in Store(bs[1..], k, c);
        }
      }
    }
  }

  /** With unique keys, the item of a key is what `d.get` finds, and what it finds is an item. */
  lemma {:induction false} LookupItems(bs: Bounds, v: Var)
    ensures Lookup(bs, v).Some? ==> (v, Lookup(bs, v).value) in bs
    ensures UniqueKeys(bs) ==> forall k :: 0 <= k < |bs| && bs[k].0 == v ==> Lookup(bs, v) == Some(bs[k].1)
  {
    if bs != [] && bs[0].0 != v {
      LookupItems(bs[1..], v);
      forall k | 0 <= k < |bs| && bs[k].0 == v
        ensures UniqueKeys(bs) ==> Lookup(bs, v) == Some(bs[k].1)
      {
        assert bs[k] == bs[1..][k - 1];
      }
    }
  }

  /** Two nodes of the view with the same variable are the same node. */
  lemma SameVariable(nl: seq<Handle>, a: Handle, b: Handle)
    requires a in nl && b in nl && IndexOf(nl, a).value == IndexOf(nl, b).value
    ensures a == b
  {
  }

  /**
    * How the node loop from `j` on takes bound table `before` to `after`: each node from `j`
    * on with a bound has it stored under its variable, every other variable keeps its entry,
    * and no key comes to be listed twice.
    */
  ghost predicate BoundsAfter(A: seq<Node>, nl: seq<Handle>, j: nat, lower: bool, before: Bounds, after: Bounds)
    requires j <= |nl|
  {
    && (forall k :: j <= k < |nl| && BoundOf(A, nl[k], lower).Some? ==>
          Lookup(after, IndexOf(nl, nl[k]).value) == BoundOf(A, nl[k], lower))
    && (forall v :: (forall k :: j <= k < |nl| ==> IndexOf(nl, nl[k]).value != v || BoundOf(A, nl[k], lower).None?) ==>
          Lookup(after, v) == Lookup(before, v))
    && (UniqueKeys(before) ==> UniqueKeys(after))
  }

  /** What the node loop from `j` on leaves in a bound table. */
  lemma {:induction false} LowerNodesBounds(A: seq<Node>, nl: seq<Handle>, j: nat, t: Tables, lower: bool)
    requires j <= |nl| && (forall h :: h in nl ==> h < |A|) && LowerNodes(A, nl, j, t).Ok?
    ensures BoundsAfter(A, nl, j, lower, BoundsOf(t, lower), BoundsOf(LowerNodes(A, nl, j, t).value, lower))
    decreases |nl| - j
  {
    if j < |nl| {
      var h := nl[j];
      var s := NodeStep(A, nl, h, t);
      assert LowerNodes(A, nl, j, t) == LowerNodes(A, nl, j + 1, s.value);
      LowerNodesBounds(A, nl, j + 1, s.value, lower);
      var b := BoundOf(A, h, lower);
      assert BoundsOf(s.value, lower) == if b.Some? then Store(BoundsOf(t, lower), IndexOf(nl, h).value, b.value) else BoundsOf(t, lower);
      BoundsStep(A, nl, j, lower, BoundsOf(t, lower), BoundsOf(s.value, lower), BoundsOf(LowerNodes(A, nl, j, t).value, lower));
    } else {
      assert BoundsAfter(A, nl, j, lower, BoundsOf(t, lower), BoundsOf(t, lower));
    }
  }

  /** Node `nl[j]` stores its bound, if any, under its variable: one step of `BoundsAfter`. */
  lemma BoundsStep(A: seq<Node>, nl: seq<Handle>, j: nat, lower: bool, before: Bounds, mid: Bounds, after: Bounds)
    requires j < |nl| && (forall h :: h in nl ==> h < |A|)
    requires mid == if BoundOf(A, nl[j], lower).Some? then Store(before, IndexOf(nl, nl[j]).value, BoundOf(A, nl[j], lower).value)
                    else before
    requires BoundsAfter(A, nl, j + 1, lower, mid, after)
    ensures BoundsAfter(A, nl, j, lower, before, after)
  {
    var h := nl[j];
    var i := IndexOf(nl, h).value;
    var b := BoundOf(A, h, lower);
    if b.Some? {
      if UniqueKeys(before) {
        StoreUnique(before, i, b.value);
      }
      if exists k :: j + 1 <= k < |nl| && IndexOf(nl, nl[k]).value == i && BoundOf(A, nl[k], lower).Some? {
        var k :| j + 1 <= k < |nl| && IndexOf(nl, nl[k]).value == i && BoundOf(A, nl[k], lower).Some?;
        SameVariable(nl, h, nl[k]);
      }
    }
    forall v | forall k :: j <= k < |nl| ==> IndexOf(nl, nl[k]).value != v || BoundOf(A, nl[k], lower).None?
      ensures Lookup(after, v) == Lookup(before, v)
    {
      assert IndexOf(nl, nl[j]).value != v || BoundOf(A, nl[j], lower).None?;
    }
  }

  /**
    * The bound tables of a lowered view: the lower (upper) bound of the variable of a node
    * is the lower (upper) bound of the node, and no variable is listed twice.
    */
  lemma LoweringBounds(A: seq<Node>, nl: seq<Handle>, inputs: seq<Handle>, outputs: seq<Handle>, eqs: seq<Constraint>)
    requires (forall h :: h in nl ==> h < |A|) && Lowering(A, nl, inputs, outputs, eqs).Ok?
    ensures var t := Lowering(A, nl, inputs, outputs, eqs).value;
            && UniqueKeys(t.lowerBounds) && UniqueKeys(t.upperBounds)
            && (forall h :: h in nl ==> Lookup(t.lowerBounds, ToVar(nl)[h]) == A[h].limit.lower)
            && (forall h :: h in nl ==> Lookup(t.upperBounds, ToVar(nl)[h]) == A[h].limit.upper)
  {
    var iv := Vars(nl, inputs).value;
    var ov := Vars(nl, outputs).value;
    var t0 := Tables(map[], map[], |nl|, iv, ov, [], [], [], []);
    var t1 := LowerNodes(A, nl, 0, t0).value;
    LowerEquationsOutcome(nl, eqs, 0, t1);
    forall lower: bool ensures
      && UniqueKeys(BoundsOf(t1, lower))
      && forall h :: h in nl ==> Lookup(BoundsOf(t1, lower), ToVar(nl)[h]) == BoundOf(A, h, lower)
    {
      LowerNodesBounds(A, nl, 0, t0, lower);
      forall h | h in nl ensures Lookup(BoundsOf(t1, lower), ToVar(nl)[h]) == BoundOf(A, h, lower) {
        var i := IndexOf(nl, h).value;
        if BoundOf(A, h, lower).Some? {
          assert nl[i] == h;
        } else {
          forall k | 0 <= k < |nl| ensures IndexOf(nl, nl[k]).value != i || BoundOf(A, nl[k], lower).None? {
            if IndexOf(nl, nl[k]).value == i {
              SameVariable(nl, h, nl[k]);
            }
          }
        }
      }
    }
    assert BoundsOf(t1, true) == t1.lowerBounds && BoundsOf(t1, false) == t1.upperBounds;
  }

  // ---------------------------------------------------------------------------
  // The assignment propagation starts from

  /** The two bounds of `v` are one number. */
  ghost predicate FixedVar(ev: Evaluator, v: Var)
    reads ev
  {
    Lookup(ev.lowerBounds, v).Some? && ev.Fixed(v, Lookup(ev.lowerBounds, v).value)
  }

  /** The input loop of `forwardEvaluate` from `j` on: the last value given to a variable wins. */
  lemma {:induction false} InputsFromValues(ev: Evaluator, inp: seq<real>, d: Assignment, j: nat)
    requires |inp| == |ev.inputVars| && j <= |inp|
    ensures var r := ev.InputsFrom(inp, d, j);
            && (forall v :: v in r <==> v in d || exists k :: j <= k < |inp| && ev.inputVars[k] == v)
            && (forall k :: j <= k < |inp| && (forall k' :: k < k' < |inp| ==> ev.inputVars[k'] != ev.inputVars[k]) ==>
                  r[ev.inputVars[k]] == inp[k])
            && (forall v :: v in d && (forall k :: j <= k < |inp| ==> ev.inputVars[k] != v) ==> r[v] == d[v])
    decreases |inp| - j
  {
    if j < |inp| {
      InputsFromValues(ev, inp, d[ev.inputVars[j] := inp[j]], j + 1);
    }
  }

  /** The fixed-variable loop of `forwardEvaluate` from `j` on: a variable whose bounds agree gets their value. */
  lemma {:induction false} FixedFromValues(ev: Evaluator, d: Assignment, j: nat)
    requires j <= |ev.lowerBounds|
    ensures var r := ev.FixedFrom(d, j);
            var lb, ub := ev.lowerBounds, ev.upperBounds;
            && (forall v :: v in r <==> v in d || exists k :: j <= k < |lb| && lb[k].0 == v && Lookup(ub, v) == Some(lb[k].1))
            && (forall k :: j <= k < |lb| && Lookup(ub, lb[k].0) == Some(lb[k].1) && (forall k' :: k < k' < |lb| ==> lb[k'].0 != lb[k].0) ==>
                  r[lb[k].0] == lb[k].1)
            && (forall v :: v in d && (forall k :: j <= k < |lb| ==> lb[k].0 != v || Lookup(ub, v) != Some(lb[k].1)) ==> r[v] == d[v])
    decreases |ev.lowerBounds| - j
  {
    if j < |ev.lowerBounds| {
      var (v, l) := ev.lowerBounds[j];
      var d' := if Lookup(ev.upperBounds, v) == Some(l) then d[v := l] else d;
      FixedFromValues(ev, d', j + 1);
    }
  }

  /**
    * The assignment `forwardEvaluate` starts from: the input variables and the variables
    * whose two bounds agree have values and no other does; a variable with agreeing bounds
    * has their value, and another input variable has the last value given to it.
    */
  lemma SeedMeaning(ev: Evaluator, inp: seq<real>)
    requires |inp| == |ev.inputVars| && UniqueKeys(ev.lowerBounds)
    ensures var s := ev.Seed(inp);
            && (forall v :: v in s <==> v in ev.inputVars || FixedVar(ev, v))
            && (forall v, x :: ev.Fixed(v, x) ==> v in s && s[v] == x)
            && (forall k :: 0 <= k < |inp| && !FixedVar(ev, ev.inputVars[k])
                            && (forall k' :: k < k' < |inp| ==> ev.inputVars[k'] != ev.inputVars[k]) ==>
                  s[ev.inputVars[k]] == inp[k])
  {
    var lb, ub := ev.lowerBounds, ev.upperBounds;
    var d := ev.InputsFrom(inp, map[], 0);
    var s := ev.Seed(inp);
    InputsFromValues(ev, inp, map[], 0);
    FixedFromValues(ev, d, 0);
    forall v ensures v in s <==> v in ev.inputVars || FixedVar(ev, v) {
      LookupItems(lb, v);
    }
    forall v, x | ev.Fixed(v, x) ensures v in s && s[v] == x {
      LookupItems(lb, v);
      var k :| 0 <= k < |lb| && lb[k] == (v, x);
    }
    forall k | 0 <= k < |inp| && !FixedVar(ev, ev.inputVars[k])
                              && (forall k' :: k < k' < |inp| ==> ev.inputVars[k'] != ev.inputVars[k])
      ensures s[ev.inputVars[k]] == inp[k]
    {
      var v := ev.inputVars[k];
      LookupItems(lb, v);
    }
  }

  /**
    * The start of `forwardEvaluate` on the evaluator of a view: a node whose lower and
    * upper bounds are one number starts with that number, and an input node without such
    * bounds starts with the last input value given to it.
    */
  lemma SeedOfView(A: seq<Node>, nl: seq<Handle>, inputs: seq<Handle>, outputs: seq<Handle>, eqs: seq<Constraint>,
                   ev: Evaluator, inp: seq<real>)
    requires (forall h :: h in nl ==> h < |A|) && Lowering(A, nl, inputs, outputs, eqs).Ok?
    requires ev.Snapshot() == Lowering(A, nl, inputs, outputs, eqs).value && |inp| == |inputs|
    ensures |inp| == |ev.inputVars|
    ensures forall h :: h in nl && A[h].limit.lower.Some? && A[h].limit.lower == A[h].limit.upper ==>
              ToVar(nl)[h] in ev.Seed(inp) && ev.Seed(inp)[ToVar(nl)[h]] == A[h].limit.lower.value
    ensures forall k :: 0 <= k < |inp| && !(BoundOf(A, inputs[k], true).Some? && BoundOf(A, inputs[k], true) == BoundOf(A, inputs[k], false))
                        && (forall k' :: k < k' < |inp| ==> inputs[k'] != inputs[k]) ==>
              ToVar(nl)[inputs[k]] in ev.Seed(inp) && ev.Seed(inp)[ToVar(nl)[inputs[k]]] == inp[k]
  {
    LoweringOutcome(A, nl, inputs, outputs, eqs);
    LoweringBounds(A, nl, inputs, outputs, eqs);
    SeedMeaning(ev, inp);
    forall k | 0 <= k < |inp| && !(BoundOf(A, inputs[k], true).Some? && BoundOf(A, inputs[k], true) == BoundOf(A, inputs[k], false))
                              && (forall k' :: k < k' < |inp| ==> inputs[k'] != inputs[k])
      ensures ToVar(nl)[inputs[k]] in ev.Seed(inp) && ev.Seed(inp)[ToVar(nl)[inputs[k]]] == inp[k]
    {
      assert inputs[k] in inputs + outputs;
      assert ev.inputVars[k] in ev.inputVars;
      forall k' | k < k' < |inp| ensures ev.inputVars[k'] != ev.inputVars[k] {
        assert inputs[k'] in inputs + outputs;
      }
    }
  }
}
