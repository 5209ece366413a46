/**
  * What the layers `import_ipq` builds mean: which variables a sum layer and a ReLU layer
  * define, and that the NodeSum built for an equation computes the variable the equation
  * defines. The sum node as `build_weighted_sum` writes it computes that variable only when
  * its coefficient is -1; `WrittenSum` keeps that form and `SignLost` shows an input where it
  * is wrong, while `Solved` (used by the rest of the model) is proved right for both signs.
  */
module IpqFacts {
  import opened Wrappers
  import opened Nodes
  import opened Equations
  import opened Ipq

  // ---------------------------------------------------------------------------
  // Values of variables and nodes

  /** `sum(c * x[v] for v, c in adds)`: the left-hand side of an equation of the query. */
  function Dot(adds: seq<(int, real)>, x: int -> real): real
  {
    if adds == [] then 0.0 else adds[0].1 * x(adds[0].0) + Dot(adds[1..], x)
  }

  /** The same sum over the variables other than `nv`. */
  function Rest(adds: seq<(int, real)>, nv: int, x: int -> real): real
  {
    if adds == [] then 0.0
    else (if adds[0].0 == nv then 0.0 else adds[0].1 * x(adds[0].0)) + Rest(adds[1..], nv, x)
  }

  /** The total coefficient of `nv` in an equation. */
  function Coef(adds: seq<(int, real)>, nv: int): real
  {
    if adds == [] then 0.0 else (if adds[0].0 == nv then adds[0].1 else 0.0) + Coef(adds[1..], nv)
  }

  /** The value a NodeSum computes from the values of the nodes it reads. */
  function SumValue(k: Kind, val: Handle -> real): real
    requires k.Sum?
  {
    Lhs(k.inputs, val) + k.scalar
  }

  /** Node values that agree with the variables' values through the table. */
  predicate Agrees(at: map<int, Handle>, x: int -> real, val: Handle -> real)
  {
    forall v :: v in at ==> val(at[v]) == x(v)
  }

  lemma {:induction false} DotSplit(adds: seq<(int, real)>, nv: int, x: int -> real)
    ensures Dot(adds, x) == Coef(adds, nv) * x(nv) + Rest(adds, nv, x)
  {
    if adds != [] {
      DotSplit(adds[1..], nv, x);
    }
  }

  /** An equation whose only unmapped variable is `nv`, with coefficient `nc`, has `nc` as its total coefficient for `nv`. */
  lemma {:induction false} CoefUnmapped(adds: seq<(int, real)>, at: map<int, Handle>, nv: int, nc: real)
    requires nv !in at
    requires Unmapped(adds, at) == [(nv, nc)] || Unmapped(adds, at) == []
    ensures Coef(adds, nv) == if Unmapped(adds, at) == [] then 0.0 else nc
  {
    if adds != [] {
      var u := Unmapped(adds[1..], at);
      assert Unmapped(adds, at) == (if adds[0].0 in at then [] else [adds[0]]) + u;
      if adds[0].0 in at {
        CoefUnmapped(adds[1..], at, nv, nc);
      } else {
        assert adds[0] == (nv, nc) && u == [];
        CoefUnmapped(adds[1..], at, nv, nc);
      }
    }
  }

  /** The terms kept for a sum node weigh the other variables by `k`. */
  lemma {:induction false} TermsValue(adds: seq<(int, real)>, nv: int, at: map<int, Handle>, k: real,
                                      x: int -> real, val: Handle -> real)
    requires OthersMapped(adds, nv, at) && Agrees(at, x, val)
    ensures Lhs(Terms(adds, nv, at, k), val) == k * Rest(adds, nv, x)
  {
    if adds != [] {
      OthersMappedTail(adds, nv, at);
      TermsValue(adds[1..], nv, at, k, x, val);
      if adds[0].0 == nv {
        assert Terms(adds, nv, at, k) == Terms(adds[1..], nv, at, k);
      } else {
        TermsHead(adds, nv, at, k, x, val);
        ScaledStep(k, adds[0].1, x(adds[0].0), Lhs(Terms(adds[1..], nv, at, k), val), Rest(adds[1..], nv, x));
      }
    }
  }

  lemma OthersMappedTail(adds: seq<(int, real)>, nv: int, at: map<int, Handle>)
    requires adds != [] && OthersMapped(adds, nv, at)
    ensures OthersMapped(adds[1..], nv, at)
  {
    forall j | 0 <= j < |adds[1..]| && adds[1..][j].0 != nv ensures adds[1..][j].0 in at {
      assert adds[1..][j] == adds[j + 1];
    }
  }

  /** A mapped variable other than `nv` at the head contributes its term first. */
  lemma TermsHead(adds: seq<(int, real)>, nv: int, at: map<int, Handle>, k: real,
                  x: int -> real, val: Handle -> real)
    requires adds != [] && adds[0].0 != nv && OthersMapped(adds, nv, at) && Agrees(at, x, val)
    ensures Lhs(Terms(adds, nv, at, k), val) == (k * adds[0].1) * x(adds[0].0) + Lhs(Terms(adds[1..], nv, at, k), val)
    ensures Rest(adds, nv, x) == adds[0].1 * x(adds[0].0) + Rest(adds[1..], nv, x)
  {
    assert adds[0].0 in at;
    var ts := Terms(adds, nv, at, k);
    assert ts == [(k * adds[0].1, at[adds[0].0])] + Terms(adds[1..], nv, at, k);
    assert ts[1..] == Terms(adds[1..], nv, at, k);
  }

  /** One more term scales like the rest: the arithmetic step of `TermsValue`. */
  lemma ScaledStep(k: real, c: real, xv: real, lt: real, rt: real)
    requires lt == k * rt
    ensures (k * c) * xv + lt == k * (c * xv + rt)
  {
    calc {
      (k * c) * xv + lt;
      k * (c * xv) + k * rt;
      k * (c * xv + rt);
    }
  }

  // ---------------------------------------------------------------------------
  // The sum node of an equation

  /**
    * The node built for an equation that defines `nv` computes `nv`: with the other variables
    * given through the table, the equation holds exactly when the node's value is `x[nv]`.
    */
  lemma SolvedSatisfies(e: Linear, at: map<int, Handle>, strict: bool, nv: int, nc: real,
                        x: int -> real, val: Handle -> real)
    requires Defines(e, at, strict) == Ok(Some((nv, nc)))
    requires Agrees(at, x, val)
    ensures Dot(e.adds, x) == e.scalar <==> SumValue(Solved(e, nv, nc, at), val) == x(nv)
  {
    assert (nv, nc) in Unmapped(e.adds, at);
    CoefUnmapped(e.adds, at, nv, nc);
    DotSplit(e.adds, nv, x);
    TermsValue(e.adds, nv, at, 0.0 - nc, x, val);
    var r := Rest(e.adds, nv, x);
    var s := SumValue(Solved(e, nv, nc, at), val);
    assert s == (0.0 - nc) * r + nc * e.scalar;
    assert Dot(e.adds, x) == nc * x(nv) + r;
    if nc == 1.0 {
      assert s == e.scalar - r;
    } else {
      assert nc == -1.0;
      assert s == r - e.scalar;
    }
  }

  /** The NodeSum `build_weighted_sum` writes: coefficient `c` for each other variable, scalar `-scalar`. */
  function WrittenSum(e: Linear, nv: int, at: map<int, Handle>): (r: Kind)
    requires OthersMapped(e.adds, nv, at)
    ensures r.Sum? && r.scalar == 0.0 - e.scalar && TermNodes(r.inputs) == TermNodes(Terms(e.adds, nv, at, 1.0))
  {
    Sum(Terms(e.adds, nv, at, 1.0), 0.0 - e.scalar)
  }

  /** Where the new variable's coefficient is -1, as strict mode demands, the written node is the solved one. */
  lemma WrittenAgrees(e: Linear, at: map<int, Handle>, strict: bool, nv: int)
    requires Defines(e, at, strict) == Ok(Some((nv, -1.0)))
    ensures WrittenSum(e, nv, at) == Solved(e, nv, -1.0, at)
  {
    assert 0.0 - -1.0 == 1.0;
  }

  /**
    * Where the coefficient is 1, which non-strict mode lets through, the written node computes
    * `-x[nv]`: `x0 + x1 == 0` with `x0` mapped and `x0 = 1, x1 = -1` gives a node of value 1.
    */
  lemma SignLost()
    ensures var e := Linear(0, 0.0, [(0, 1.0), (1, 1.0)]);
      var at := map[0 := 0];
      var x := (v: int) => if v == 0 then 1.0 else -1.0;
      var val := (h: Handle) => 1.0;
      && Defines(e, at, false) == Ok(Some((1, 1.0)))
      && Agrees(at, x, val)
      && Dot(e.adds, x) == e.scalar
      && SumValue(WrittenSum(e, 1, at), val) == 1.0 != x(1)
      && SumValue(Solved(e, 1, 1.0, at), val) == x(1)
  {
    var e := Linear(0, 0.0, [(0, 1.0), (1, 1.0)]);
    var at := map[0 := 0];
    var x := (v: int) => if v == 0 then 1.0 else -1.0;
    var val := (h: Handle) => 1.0;
    assert Unmapped(e.adds, at) == [(1, 1.0)] by {
      assert e.adds[1..] == [(1, 1.0)];
      assert e.adds[1..][1..] == [];
    }
    assert Defines(e, at, false) == Ok(Some((1, 1.0)));
    assert Dot(e.adds, x) == e.scalar by {
      assert e.adds[1..][1..] == [];
    }
    SolvedSatisfies(e, at, false, 1, 1.0, x, val);
    TermsValue(e.adds, 1, at, 1.0, x, val);
    assert Rest(e.adds, 1, x) == 1.0 by {
      assert e.adds[1..][1..] == [];
    }
  }

  // ---------------------------------------------------------------------------
  // What a sum layer defines

  /** The variables the equations from `e` on define. */
  function SumDefined(eqs: seq<Linear>, at: map<int, Handle>, strict: bool, e: nat): set<int>
  {
    set k | e <= k < |eqs| && Defines(eqs[k], at, strict).Ok? && Defines(eqs[k], at, strict).value.Some?
      :: Defines(eqs[k], at, strict).value.value.0
  }

  /** Node `h` of `B` is the solved node of an equation from `e` on that defines `v`. */
  predicate SolvesFor(eqs: seq<Linear>, at: map<int, Handle>, strict: bool, e: nat, B: seq<Node>, v: int, h: Handle)
  {
    exists k :: e <= k < |eqs| && Defines(eqs[k], at, strict).Ok? && Defines(eqs[k], at, strict).value.Some?
      && Defines(eqs[k], at, strict).value.value.0 == v
      && h < |B| && B[h].kind == Solved(eqs[k], v, Defines(eqs[k], at, strict).value.value.1, at)
  }

  lemma SumDefinedStep(eqs: seq<Linear>, at: map<int, Handle>, strict: bool, e: nat)
    requires e < |eqs| && Defines(eqs[e], at, strict).Ok?
    ensures SumDefined(eqs, at, strict, e) ==
      SumDefined(eqs, at, strict, e + 1)
      + (if Defines(eqs[e], at, strict).value.Some? then {Defines(eqs[e], at, strict).value.value.0} else {})
  {
  }

  /**
    * What the equation loop from `e` on, started on arena `A` and defined pairs `dvar`, leaves
    * in `x`: an extension of `A` and, when it succeeds, an extension of `dvar` whose keys are
    * exactly the variables the equations from `e` on define, each paired with its solved node.
    */
  ghost predicate SumSpec(eqs: seq<Linear>, at: map<int, Handle>, strict: bool, e: nat, A: seq<Node>,
                          dvar: seq<(int, Handle)>, x: (seq<Node>, Result<(seq<Handle>, seq<(int, Handle)>), Fault>))
  {
    && |A| <= |x.0| && x.0[..|A|] == A
    && (x.1.Ok? ==>
      && |dvar| <= |x.1.value.1| && x.1.value.1[..|dvar|] == dvar
      && Keys(x.1.value.1) == Keys(dvar) + SumDefined(eqs, at, strict, e)
      && forall j :: |dvar| <= j < |x.1.value.1| ==>
           SolvesFor(eqs, at, strict, e, x.0, x.1.value.1[j].0, x.1.value.1[j].1))
  }

  /**
    * A sum layer that succeeds defines exactly the variables its equations define, once each,
    * and each new node is the solved node of the equation that defines its variable.
    */
  lemma {:induction false} SumLayerDefines(eqs: seq<Linear>, at: map<int, Handle>, A: seq<Node>, l: nat, strict: bool,
                                           name: Label, e: nat, layer: seq<Handle>, dvar: seq<(int, Handle)>)
    ensures SumSpec(eqs, at, strict, e, A, dvar, SumLayer(eqs, at, A, l, strict, name, e, layer, dvar))
    decreases |eqs| - e
  {
    var x := SumLayer(eqs, at, A, l, strict, name, e, layer, dvar);
    if e >= |eqs| {
      assert A[..|A|] == A;
      assert SumDefined(eqs, at, strict, e) == {};
    } else {
      match Defines(eqs[e], at, strict)
      case Fail(_) =>
        assert A[..|A|] == A;
      case Ok(None) =>
        SumLayerDefines(eqs, at, A, l, strict, name, e + 1, layer, dvar);
        assert x == SumLayer(eqs, at, A, l, strict, name, e + 1, layer, dvar);
        SumSpecSkip(eqs, at, strict, e, A, dvar, x);
      case Ok(Some((nv, nc))) =>
        var n := Node(Solved(eqs[e], nv, nc, at), Unbounded, Some(name(SumRole, l, |layer|)));
        if nv in Keys(dvar) {
          assert (A + [n])[..|A|] == A;
        } else {
          SumLayerDefines(eqs, at, A + [n], l, strict, name, e + 1, layer + [|A|], dvar + [(nv, |A|)]);
          assert x == SumLayer(eqs, at, A + [n], l, strict, name, e + 1, layer + [|A|], dvar + [(nv, |A|)]);
          SumSpecSolve(eqs, at, strict, e, A, n, nv, nc, dvar, x);
        }
    }
  }

  /** An equation that defines nothing leaves `SumSpec` as the rest of the loop has it. */
  lemma SumSpecSkip(eqs: seq<Linear>, at: map<int, Handle>, strict: bool, e: nat, A: seq<Node>,
                    dvar: seq<(int, Handle)>, x: (seq<Node>, Result<(seq<Handle>, seq<(int, Handle)>), Fault>))
    requires e < |eqs| && Defines(eqs[e], at, strict) == Ok(None)
    requires SumSpec(eqs, at, strict, e + 1, A, dvar, x)
    ensures SumSpec(eqs, at, strict, e, A, dvar, x)
  {
    SumDefinedStep(eqs, at, strict, e);
    if x.1.Ok? {
      forall j | |dvar| <= j < |x.1.value.1|
        ensures SolvesFor(eqs, at, strict, e, x.0, x.1.value.1[j].0, x.1.value.1[j].1)
      {
        assert SolvesFor(eqs, at, strict, e + 1, x.0, x.1.value.1[j].0, x.1.value.1[j].1);
      }
    }
  }

  /** An equation that defines a new variable `nv` with node `n` at the end of `A`: one step of `SumSpec`. */
  lemma SumSpecSolve(eqs: seq<Linear>, at: map<int, Handle>, strict: bool, e: nat, A: seq<Node>, n: Node, nv: int, nc: real,
                     dvar: seq<(int, Handle)>, x: (seq<Node>, Result<(seq<Handle>, seq<(int, Handle)>), Fault>))
    requires e < |eqs| && Defines(eqs[e], at, strict) == Ok(Some((nv, nc))) && n.kind == Solved(eqs[e], nv, nc, at)
    requires SumSpec(eqs, at, strict, e + 1, A + [n], dvar + [(nv, |A|)], x)
    ensures SumSpec(eqs, at, strict, e, A, dvar, x)
  {
    assert (A + [n])[..|A|] == A;
    PrefixChain(A, A + [n], x.0);
    if x.1.Ok? {
      var d := dvar + [(nv, |A|)];
      assert d[..|dvar|] == dvar;
      PrefixChain(dvar, d, x.1.value.1);
      KeysSolve(eqs, at, strict, e, nv, nc, dvar, |A|, x.1.value.1);
      SolvesSolve(eqs, at, strict, e, A, n, nv, nc, dvar, x.0, x.1.value.1);
    }
  }

  /** Defining `nv` at equation e adds it to the keys, as the equations from e on define it. */
  lemma KeysSolve(eqs: seq<Linear>, at: map<int, Handle>, strict: bool, e: nat, nv: int, nc: real,
                  dvar: seq<(int, Handle)>, h: Handle, d': seq<(int, Handle)>)
    requires e < |eqs| && Defines(eqs[e], at, strict) == Ok(Some((nv, nc)))
    requires Keys(d') == Keys(dvar + [(nv, h)]) + SumDefined(eqs, at, strict, e + 1)
    ensures Keys(d') == Keys(dvar) + SumDefined(eqs, at, strict, e)
  {
    SumDefinedStep(eqs, at, strict, e);
    KeysAppend(dvar, (nv, h));
  }

  /** The pair appended for `nv` names the solved node `n`; the later pairs keep their reasons. */
  lemma SolvesSolve(eqs: seq<Linear>, at: map<int, Handle>, strict: bool, e: nat, A: seq<Node>, n: Node, nv: int, nc: real,
                    dvar: seq<(int, Handle)>, B: seq<Node>, d': seq<(int, Handle)>)
    requires e < |eqs| && Defines(eqs[e], at, strict) == Ok(Some((nv, nc))) && n.kind == Solved(eqs[e], nv, nc, at)
    requires |A| + 1 <= |B| && B[..|A| + 1] == A + [n]
    requires |dvar| + 1 <= |d'| && d'[..|dvar| + 1] == dvar + [(nv, |A|)]
    requires forall j :: |dvar| + 1 <= j < |d'| ==> SolvesFor(eqs, at, strict, e + 1, B, d'[j].0, d'[j].1)
    ensures forall j :: |dvar| <= j < |d'| ==> SolvesFor(eqs, at, strict, e, B, d'[j].0, d'[j].1)
  {
    assert d'[|dvar|] == d'[..|dvar| + 1][|dvar|] == (nv, |A|);
    assert B[|A|] == B[..|A| + 1][|A|] == n;
    assert SolvesFor(eqs, at, strict, e, B, nv, |A|);
    forall j | |dvar| + 1 <= j < |d'| ensures SolvesFor(eqs, at, strict, e, B, d'[j].0, d'[j].1) {
      var k :| e + 1 <= k < |eqs| && Defines(eqs[k], at, strict).Ok? && Defines(eqs[k], at, strict).value.Some?
        && Defines(eqs[k], at, strict).value.value.0 == d'[j].0
        && d'[j].1 < |B| && B[d'[j].1].kind == Solved(eqs[k], d'[j].0, Defines(eqs[k], at, strict).value.value.1, at);
    }
  }

  // ---------------------------------------------------------------------------
  // What a ReLU layer defines

  /** The output variables of the relu constraints from `c` on whose input is mapped and output is not. */
  function ReluDefined(cs: seq<Piecewise>, at: map<int, Handle>, c: nat): set<int>
  {
    set k | c <= k < |cs| && cs[k].Unary? && cs[k].kind == "relu" && cs[k].b in at && cs[k].f !in at :: cs[k].f
  }

  /** Node `h` of `B` is the ReLU of a constraint from `c` on whose output is `v`. */
  predicate ReluFor(cs: seq<Piecewise>, at: map<int, Handle>, c: nat, B: seq<Node>, v: int, h: Handle)
  {
    exists k :: c <= k < |cs| && cs[k].Unary? && cs[k].kind == "relu" && cs[k].b in at && cs[k].f == v
      && h < |B| && B[h].kind == ReLU(at[cs[k].b], false)
  }

  lemma ReluDefinedStep(cs: seq<Piecewise>, at: map<int, Handle>, c: nat)
    requires c < |cs|
    ensures ReluDefined(cs, at, c) ==
      ReluDefined(cs, at, c + 1)
      + (if cs[c].Unary? && cs[c].kind == "relu" && cs[c].b in at && cs[c].f !in at then {cs[c].f} else {})
  {
  }

  /**
    * A ReLU layer succeeds only when every constraint is a relu; it then defines exactly the
    * outputs of the relus whose input is mapped and output is not, once each, and each new
    * node is the ReLU of the mapped input.
    */
  lemma {:induction false} ReluLayerDefines(cs: seq<Piecewise>, at: map<int, Handle>, A: seq<Node>, l: nat, name: Label,
                                            c: nat, layer: seq<Handle>, dvar: seq<(int, Handle)>)
    ensures var x := ReluLayer(cs, at, A, l, name, c, layer, dvar);
      && |A| <= |x.0| && x.0[..|A|] == A
      && (x.1.Ok? ==>
        && (forall k :: c <= k < |cs| ==> cs[k].Unary? && cs[k].kind == "relu")
        && |dvar| <= |x.1.value.1| && x.1.value.1[..|dvar|] == dvar
        && Keys(x.1.value.1) == Keys(dvar) + ReluDefined(cs, at, c)
        && forall j :: |dvar| <= j < |x.1.value.1| ==> ReluFor(cs, at, c, x.0, x.1.value.1[j].0, x.1.value.1[j].1))
    decreases |cs| - c
  {
    var x := ReluLayer(cs, at, A, l, name, c, layer, dvar);
    if c >= |cs| {
      assert A[..|A|] == A;
    } else {
      match ReluOf(cs[c], at)
      case Fail(_) =>
        assert A[..|A|] == A;
      case Ok(None) =>
        ReluLayerDefines(cs, at, A, l, name, c + 1, layer, dvar);
        ReluDefinedStep(cs, at, c);
        if x.1.Ok? {
          forall j | |dvar| <= j < |x.1.value.1| ensures ReluFor(cs, at, c, x.0, x.1.value.1[j].0, x.1.value.1[j].1) {
            assert ReluFor(cs, at, c + 1, x.0, x.1.value.1[j].0, x.1.value.1[j].1);
          }
        }
      case Ok(Some((vf, input))) =>
        var A' := A + [Node(ReLU(input, false), Unbounded, Some(name(ReluRole, l, |layer|)))];
        if vf in Keys(dvar) {
          assert A'[..|A|] == A;
        } else {
          var d := dvar + [(vf, |A|)];
          ReluLayerDefines(cs, at, A', l, name, c + 1, layer + [|A|], d);
          assert x == ReluLayer(cs, at, A', l, name, c + 1, layer + [|A|], d);
          assert x.0[..|A|] == A by {
            assert x.0[..|A|] == x.0[..|A'|][..|A|];
            assert A'[..|A|] == A;
          }
          if x.1.Ok? {
            var d' := x.1.value.1;
            assert d'[..|dvar|] == dvar by {
              assert d'[..|dvar|] == d'[..|d|][..|dvar|];
              assert d[..|dvar|] == dvar;
            }
            ReluDefinedStep(cs, at, c);
            KeysAppend(dvar, (vf, |A|));
            forall j | |dvar| <= j < |d'| ensures ReluFor(cs, at, c, x.0, d'[j].0, d'[j].1) {
              if j == |dvar| {
                assert d'[j] == d'[..|d|][j] == (vf, |A|);
                assert x.0[|A|] == x.0[..|A'|][|A|] == A'[|A|];
              } else {
                assert ReluFor(cs, at, c + 1, x.0, d'[j].0, d'[j].1);
              }
            }
          }
        }
    }
  }
}
