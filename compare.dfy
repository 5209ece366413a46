/**
  * Joining an original network and a modified copy of it into one query
  * (`_join`, `join`, `compareExact` and `compareMinimum` of src/redy/features/amend.py).
  * The copy is cut at the first overridden layer; its untouched neurons of that layer are
  * replaced by the original's, and its overridden neurons start from the original's
  * pre-activation node, so both halves read the same inputs.
  */
module Compare {
  import opened Wrappers
  import opened Nodes
  import opened Equations
  import opened Views
  import opened Amend

  /** A neuron named by its layer and its index in that layer. */
  type Neuron = (nat, nat)

  function Last(ch: Chain): Handle
    requires |ch| > 0
  {
    ch[|ch| - 1]
  }

  /** `min(l for l, n in neurons)`. */
  function MinLayer(ns: seq<Neuron>): (m: nat)
    requires ns != []
    ensures exists i :: 0 <= i < |ns| && ns[i].0 == m
    ensures forall i :: 0 <= i < |ns| ==> m <= ns[i].0
  {
    if |ns| == 1 then ns[0].0
    else
      var m := MinLayer(ns[1..]);
      assert forall i :: 1 <= i < |ns| ==> ns[1..][i - 1] == ns[i];
      if ns[0].0 <= m then ns[0].0 else m
  }

  // ---------------------------------------------------------------------------
  // _join

  /** The join layer of the original and of the copy pair up neuron by neuron. */
  predicate Pairable(N0: Layer, M0: Layer)
  {
    PairableUpTo(N0, M0, |M0|)
  }

  /** The first `n` neurons of the copy's join layer have non-empty partners in the original. */
  predicate PairableUpTo(N0: Layer, M0: Layer, n: nat)
  {
    n <= |M0| && forall i :: 0 <= i < n ==> PairsAt(N0, M0, i)
  }

  predicate PairsAt(N0: Layer, M0: Layer, i: nat)
  {
    i < |N0| && i < |M0| && |N0[i]| > 0 && |M0[i]| > 0
  }

  /** Where `_join` stops: no neurons, a join layer outside either network, a chain it cannot pair. */
  function JoinFault(N: Layers, M: Layers, ns: seq<Neuron>): Option<Fault>
  {
    if ns == [] then Some(BadArgument)
    else if MinLayer(ns) >= |N| then Some(BadArgument)
    else if MinLayer(ns) >= |M| then Some(IndexOutOfRange)
    else if !Pairable(N[MinLayer(ns)], M[MinLayer(ns)]) then Some(IndexOutOfRange)
    else None
  }

  predicate Joinable(N: Layers, M: Layers, ns: seq<Neuron>)
  {
    JoinFault(N, M, ns).None?
  }

  /**
    * The table after the first `n` neurons of the join layer: an untouched neuron maps the
    * copy's last node to the original's, an overridden one the copy's first node to the
    * original's; a later entry for the same key replaces an earlier one.
    */
  function JoinTableUpTo(N0: Layer, M0: Layer, fdl: nat, ns: seq<Neuron>, n: nat): Trans
    requires PairableUpTo(N0, M0, n)
  {
    if n == 0 then map[]
    else
      var t := JoinTableUpTo(N0, M0, fdl, ns, n - 1);
      var i := n - 1;
      assert PairsAt(N0, M0, i);
      if (fdl, i) !in ns then t[Last(M0[i]) := Last(N0[i])] else t[M0[i][0] := N0[i][0]]
  }

  function JoinTable(N: Layers, M: Layers, ns: seq<Neuron>): Trans
    requires Joinable(N, M, ns)
  {
    var fdl := MinLayer(ns);
    JoinTableUpTo(N[fdl], M[fdl], fdl, ns, |M[fdl]|)
  }

  /** The copy once every overridden chain of the join layer starts from the original's first node. */
  function JoinedCopy(N: Layers, M: Layers, ns: seq<Neuron>): (M': Layers)
    requires Joinable(N, M, ns)
    ensures |M'| == |M| && |M'[MinLayer(ns)]| == |M[MinLayer(ns)]|
  {
    var fdl := MinLayer(ns);
    var N0, M0 := N[fdl], M[fdl];
    assert Pairable(N0, M0);
    M[fdl := seq(|M0|, i requires 0 <= i < |M0| && PairableUpTo(N0, M0, |M0|) => JoinedChain(N0, M0, fdl, ns, i))]
  }

  function JoinedChain(N0: Layer, M0: Layer, fdl: nat, ns: seq<Neuron>, i: nat): Chain
    requires PairsAt(N0, M0, i)
  {
    if (fdl, i) in ns then [N0[i][0]] + M0[i][1..] else M0[i]
  }

  /** The chains of a layer whose index is among the overridden neurons of layer `l`, in order. */
  function Kept(layer: Layer, l: nat, ns: seq<Neuron>): (r: Layer)
    ensures forall ch :: ch in r ==> ch in layer
    decreases |layer|
  {
    if layer == [] then []
    else
      var i := |layer| - 1;
      Kept(layer[..i], l, ns) + (if (l, i) in ns then [layer[i]] else [])
  }

  /** The network `_join` returns: the copy from the join layer on, with only the overridden neurons kept there. */
  function JoinDup(N: Layers, M: Layers, ns: seq<Neuron>): (D: Layers)
    requires Joinable(N, M, ns)
    ensures |D| == |M| - MinLayer(ns)
  {
    var fdl := MinLayer(ns);
    var M' := JoinedCopy(N, M, ns);
    [Kept(M'[fdl], fdl, ns)] + M'[fdl + 1..]
  }

  /** The arena after translating the listed nodes one by one, a node listed twice twice. */
  function TranslateSeq(A: seq<Node>, hs: seq<Handle>, t: Trans): (r: seq<Node>)
    requires forall i :: 0 <= i < |hs| ==> hs[i] < |A|
    ensures |r| == |A|
    decreases |hs|
  {
    if hs == [] then A
    else TranslateSeq(A[hs[0] := A[hs[0]].(kind := Translated(A[hs[0]].kind, t))], hs[1..], t)
  }

  /** The arena after `_join`: every node listed in the joined copy is translated by the table. */
  function JoinArena(A: seq<Node>, N: Layers, M: Layers, ns: seq<Neuron>): (r: seq<Node>)
    requires Joinable(N, M, ns) && InArena(N, |A|) && InArena(M, |A|)
    ensures |r| == |A|
  {
    var M' := JoinedCopy(N, M, ns);
    JoinedCopyInArena(N, M, ns, |A|);
    FlattenMembersAll(M');
    assert forall i :: 0 <= i < |Flatten(M')| ==> Flatten(M')[i] in NodeSet(M');
    TranslateSeq(A, Flatten(M'), JoinTable(N, M, ns))
  }

  lemma JoinedCopyInArena(N: Layers, M: Layers, ns: seq<Neuron>, n: nat)
    requires Joinable(N, M, ns) && InArena(N, n) && InArena(M, n)
    ensures InArena(JoinedCopy(N, M, ns), n)
  {
    var M' := JoinedCopy(N, M, ns);
    var fdl := MinLayer(ns);
    assert Pairable(N[fdl], M[fdl]);
    forall h | h in NodeSet(M') ensures h < n {
      var l, c, k :| IsPos(M', l, c, k) && M'[l][c][k] == h;
      assert IsPos(M', l, c, k);
      if l == fdl {
        assert PairsAt(N[fdl], M[fdl], c);
      }
      if l == fdl && (fdl, c) in ns && k == 0 {
        PosInNodeSet(N, fdl, c, 0);
      } else if l == fdl && (fdl, c) in ns {
        assert M'[l][c][k] == M[l][c][k];
        PosInNodeSet(M, l, c, k);
      } else {
        assert M'[l][c] == M[l][c];
        PosInNodeSet(M, l, c, k);
      }
    }
  }

  /** The table loop of `_join`; overridden chains of the copy take the original's first node. */
  method PairJoinLayer(net: Network, mod: Network, fdl: nat, ns: seq<Neuron>) returns (r: Result<Trans, Fault>)
    requires net != mod && ns != [] && fdl == MinLayer(ns) && fdl < |net.layers| && fdl < |mod.layers|
    modifies mod
    ensures r.Fail? <==> !Pairable(net.layers[fdl], old(mod.layers)[fdl])
    ensures r.Fail? ==> r.error == IndexOutOfRange
    ensures r.Ok? ==>
      && Joinable(net.layers, old(mod.layers), ns)
      && r.value == JoinTable(net.layers, old(mod.layers), ns)
      && mod.layers == JoinedCopy(net.layers, old(mod.layers), ns)
  {
    var N0, M0 := net.layers[fdl], mod.layers[fdl];
    var table: Trans := map[];
    var i := 0;
    while i < |M0|
      invariant i <= |M0|
      invariant PairableUpTo(N0, M0, i)
      invariant net.layers[fdl] == N0
      invariant |mod.layers| == |old(mod.layers)| && mod.layers == old(mod.layers)[fdl := mod.layers[fdl]]
      invariant |mod.layers[fdl]| == |M0|
      invariant forall j :: 0 <= j < i ==> mod.layers[fdl][j] == JoinedChain(N0, M0, fdl, ns, j)
      invariant forall j :: i <= j < |M0| ==> mod.layers[fdl][j] == M0[j]
      invariant table == JoinTableUpTo(N0, M0, fdl, ns, i)
    {
      if i >= |N0| || |N0[i]| == 0 || |M0[i]| == 0 {
        assert !PairsAt(N0, M0, i);
        return Fail(IndexOutOfRange);
      }
      assert PairsAt(N0, M0, i);
      if (fdl, i) !in ns {
        table := table[Last(M0[i]) := Last(N0[i])];
      } else {
        table := table[M0[i][0] := N0[i][0]];
        mod.layers := mod.layers[fdl := mod.layers[fdl][i := [N0[i][0]] + M0[i][1..]]];
      }
      i := i + 1;
    }
    assert Pairable(N0, M0);
    ghost var N, M := net.layers, old(mod.layers);
    assert Joinable(N, M, ns);
    assert mod.layers[fdl] == JoinedCopy(N, M, ns)[fdl];
    return Ok(table);
  }

  /** The list comprehension that keeps the overridden chains of the join layer. */
  method KeepOverridden(layer: Layer, l: nat, ns: seq<Neuron>) returns (kept: Layer)
    ensures kept == Kept(layer, l, ns)
  {
    kept := [];
    var i := 0;
    while i < |layer|
      invariant i <= |layer|
      invariant kept == Kept(layer[..i], l, ns)
    {
      assert layer[..i + 1][..i] == layer[..i];
      if (l, i) in ns {
        kept := kept + [layer[i]];
      }
      i := i + 1;
    }
    assert layer[..i] == layer;
  }

  /** Translates every listed node by `t`, in order; a node listed twice is translated twice. */
  method TranslateEach(g: Graph, hs: seq<Handle>, t: Trans)
    requires forall i :: 0 <= i < |hs| ==> hs[i] < |g.nodes|
    modifies g
    ensures g.nodes == TranslateSeq(old(g.nodes), hs, t)
  {
    var i := 0;
    while i < |hs|
      invariant i <= |hs| && |g.nodes| == |old(g.nodes)|
      invariant TranslateSeq(g.nodes, hs[i..], t) == TranslateSeq(old(g.nodes), hs, t)
    {
      assert hs[i..][0] == hs[i] && hs[i..][1..] == hs[i + 1..];
      g.Translate(hs[i], t);
      i := i + 1;
    }
  }

  /**
    * `_join`: pairs the join layer, translates every node of the copy by the table and
    * returns the copy from the join layer on, with only the overridden chains kept there.
    * The copy's own layers keep all their chains.
    */
  method JoinNetworks(net: Network, mod: Network, g: Graph, ns: seq<Neuron>) returns (r: Result<Layers, Fault>)
    requires net != mod && InArena(net.layers, |g.nodes|) && InArena(mod.layers, |g.nodes|)
    modifies mod, g
    ensures r.Fail? <==> JoinFault(net.layers, old(mod.layers), ns).Some?
    ensures r.Fail? ==> r.error == JoinFault(net.layers, old(mod.layers), ns).value
    ensures r.Ok? ==>
      && mod.layers == JoinedCopy(net.layers, old(mod.layers), ns)
      && g.nodes == JoinArena(old(g.nodes), net.layers, old(mod.layers), ns)
      && r.value == JoinDup(net.layers, old(mod.layers), ns)
  {
    if ns == [] {
      return Fail(BadArgument);
    }
    var fdl := MinLayer(ns);
    if fdl >= |net.layers| {
      return Fail(BadArgument);
    }
    if fdl >= |mod.layers| {
      return Fail(IndexOutOfRange);
    }
    ghost var M := mod.layers;
    var paired := PairJoinLayer(net, mod, fdl, ns);
    if paired.Fail? {
      return Fail(paired.error);
    }
    var table := paired.value;
    var kept := KeepOverridden(mod.layers[fdl], fdl, ns);
    var dup := [kept] + mod.layers[fdl + 1..];
    JoinedCopyInArena(net.layers, M, ns, |g.nodes|);
    var hs := Flatten(mod.layers);
    FlattenMembersAll(mod.layers);
    assert forall i :: 0 <= i < |hs| ==> hs[i] in NodeSet(mod.layers);
    TranslateEach(g, hs, table);
    return Ok(dup);
  }

  // ---------------------------------------------------------------------------
  // The query the public operations build

  /** An equation as a value: its terms, comparator and scalar. */
  datatype Constraint = Constraint(terms: seq<Term>, comparator: Comparator, scalar: real)

  /** A `ViewIO` as a value; its nodes are the set the source collects. */
  datatype Query = Query(nodes: set<Handle>, inputs: seq<Handle>, outputs: seq<Handle>, equations: seq<Constraint>)

  /** The sanity loop of the operations: every node's references are among the nodes. */
  predicate Closed(S: set<Handle>, A: seq<Node>)
  {
    forall h :: h in S ==> h < |A| && forall x :: x in ConnectedTo(A[h].kind) ==> x in S
  }

  /** `ViewIO.sanity` of the query. */
  predicate QuerySane(q: Query)
  {
    && (forall x :: x in q.inputs + q.outputs ==> x in q.nodes)
    && (forall e, i :: e in q.equations && 0 <= i < |e.terms| ==> e.terms[i].1 in q.nodes)
  }

  /** The first node of every chain. */
  function Firsts(layer: Layer): (r: seq<Handle>)
    requires !HasEmptyChain(layer)
    ensures |r| == |layer| && forall c :: 0 <= c < |layer| ==> r[c] == layer[c][0]
  {
    seq(|layer|, c requires 0 <= c < |layer| => layer[c][0])
  }

  /** The last node of every chain. */
  function LastsOf(layer: Layer): (r: seq<Handle>)
    requires !HasEmptyChain(layer)
    ensures |r| == |layer| && forall c :: 0 <= c < |layer| ==> r[c] == Last(layer[c])
  {
    seq(|layer|, c requires 0 <= c < |layer| => Last(layer[c]))
  }

  /**
    * The end shared by the three operations, after their sanity loop: the inputs (the
    * first nodes of the original's first layer) and the construction of the `ViewIO`.
    */
  function Finish(S: set<Handle>, first: Layer, outputs: seq<Handle>, eqs: seq<Constraint>): Result<Query, Fault>
  {
    if HasEmptyChain(first) then Fail(IndexOutOfRange)
    else
      var q := Query(S, Firsts(first), outputs, eqs);
      if QuerySane(q) then Ok(q) else Fail(ReferentialIntegrity)
  }

  /** `join`: both networks' outputs, no equations. */
  function JoinQuery(N: Layers, M: Layers, A: seq<Node>, ns: seq<Neuron>): Result<Query, Fault>
    requires InArena(N, |A|) && InArena(M, |A|)
  {
    match JoinFault(N, M, ns)
    case Some(e) => Fail(e)
    case None =>
      var M' := JoinedCopy(N, M, ns);
      var outs := N[|N| - 1] + M'[|M'| - 1];
      // the outputs are read after the sanity loop, and an empty chain there is an
      // IndexError just like one among the inputs
      if !Closed(NodeSet(N) + NodeSet(JoinDup(N, M, ns)), JoinArena(A, N, M, ns)) then Fail(ReferentialIntegrity)
      else if HasEmptyChain(outs) then Fail(IndexOutOfRange)
      else Finish(NodeSet(N) + NodeSet(JoinDup(N, M, ns)), N[0], LastsOf(outs), [])
  }

  /** A network whose last layer keeps only the chain `output`. */
  function KeepOutput(L: Layers, output: nat): (r: Layers)
    requires |L| > 0 && output < |L[|L| - 1]|
    ensures |r| == |L| && r[..|L| - 1] == L[..|L| - 1] && r[|L| - 1] == [L[|L| - 1][output]]
  {
    L[|L| - 1 := [L[|L| - 1][output]]]
  }

  /** The coefficient of the original's output in `compareExact`'s equation. */
  function Sign(comparator: string): real
  {
    if comparator == "gt" then 1.0 else -1.0
  }

  /**
    * `compareExact`: the comparator must be "gt" or "lt" and `output` an output of both
    * networks; both last layers keep only that output, and one equation asks that the
    * signed difference of the two outputs be at least `eps`.
    */
  function ExactQuery(N: Layers, M: Layers, A: seq<Node>, ns: seq<Neuron>, comparator: string, output: nat, eps: real)
    : Result<Query, Fault>
    requires InArena(N, |A|) && InArena(M, |A|)
  {
    if comparator != "gt" && comparator != "lt" then Fail(BadArgument)
    else match JoinFault(N, M, ns)
    case Some(e) => Fail(e)
    case None => ExactAfterJoin(N, JoinedCopy(N, M, ns), JoinDup(N, M, ns), JoinArena(A, N, M, ns), comparator, output, eps)
  }

  /** `compareExact` from the line after `_join`, on the joined copy `M'`, its part `D` and the new arena. */
  function ExactAfterJoin(N: Layers, M': Layers, D: Layers, A': seq<Node>, comparator: string, output: nat, eps: real)
    : Result<Query, Fault>
    requires |N| > 0 && |M'| > 0
  {
    if output >= |N[|N| - 1]| || output >= |M'[|M'| - 1]| then Fail(BadArgument)
    else
      var N2, M2 := KeepOutput(N, output), KeepOutput(M', output);
      if |N2[|N2| - 1][0]| == 0 || |M2[|M2| - 1][0]| == 0 then Fail(IndexOutOfRange)
      else
        var netOut, modOut := Last(N2[|N2| - 1][0]), Last(M2[|M2| - 1][0]);
        var c := Sign(comparator);
        var eq := Constraint([(c, netOut), (-1.0 * c, modOut)], GE, eps);
        var S := NodeSet(N2) + NodeSet(D);
        if !Closed(S, A') then Fail(ReferentialIntegrity)
        else Finish(S, N2[0], [netOut, modOut], [eq])
  }

  /** The equations `winner - n <= -eps` for the outputs n before index `n` other than `output`. */
  function WinnerConstraints(last: Layer, output: nat, eps: real, n: nat): (r: seq<Constraint>)
    requires !HasEmptyChain(last) && output < |last| && n <= |last|
    ensures |r| == if output < n then n - 1 else n
  {
    if n == 0 then []
    else
      var r := WinnerConstraints(last, output, eps, n - 1);
      if n - 1 == output then r
      else r + [Constraint([(1.0, Last(last[output])), (-1.0, Last(last[n - 1]))], LE, -eps)]
  }

  /**
    * `compareMinimum`: `output` must win in the original (it is at least `eps` below every
    * other output: the smallest output is the winning class) and lose to `counter` in the
    * copy, whose last layer keeps only those two outputs.
    */
  function MinimumQuery(N: Layers, M: Layers, A: seq<Node>, ns: seq<Neuron>, output: nat, counter: nat, eps: real)
    : Result<Query, Fault>
    requires InArena(N, |A|) && InArena(M, |A|)
  {
    match JoinFault(N, M, ns)
    case Some(e) => Fail(e)
    case None => MinimumAfterJoin(N, JoinedCopy(N, M, ns), JoinDup(N, M, ns), JoinArena(A, N, M, ns), output, counter, eps)
  }

  /** `compareMinimum` from the line after `_join`, on the joined copy `M'`, its part `D` and the new arena. */
  function MinimumAfterJoin(N: Layers, M': Layers, D: Layers, A': seq<Node>, output: nat, counter: nat, eps: real)
    : Result<Query, Fault>
    requires |N| > 0 && |M'| > 0
  {
    var last, mlast := N[|N| - 1], M'[|M'| - 1];
    if counter == output then Fail(BadArgument)
    else if output >= |last| || HasEmptyChain(last) then Fail(IndexOutOfRange)
    else if output >= |mlast| || counter >= |mlast| || |mlast[output]| == 0 || |mlast[counter]| == 0 then
      Fail(IndexOutOfRange)
    else
      var eqs := WinnerConstraints(last, output, eps, |last|) +
                 [Constraint([(1.0, Last(mlast[output])), (-1.0, Last(mlast[counter]))], GE, eps)];
      var outputs := LastsOf(last) + [Last(mlast[output]), Last(mlast[counter])];
      var S := NodeSet(N) + NodeSet(D);
      if !Closed(S, A') then Fail(ReferentialIntegrity)
      else Finish(S, N[0], outputs, eqs)
  }

  /** `compareMinimum`'s copy: its last layer keeps only `output` and `counter`, in that order. */
  function KeepPair(L: Layers, output: nat, counter: nat): Layers
    requires |L| > 0 && output < |L[|L| - 1]| && counter < |L[|L| - 1]|
  {
    L[|L| - 1 := [L[|L| - 1][output], L[|L| - 1][counter]]]
  }

  // ---------------------------------------------------------------------------
  // Building the ViewIO

  /** A `ViewIO` that carries the query: its nodes list the set once each, in some order. */
  ghost predicate Realizes(v: ViewIO, q: Query)
    reads v.equations
  {
    && (forall x :: x in v.nodes <==> x in q.nodes)
    && (forall i, j :: 0 <= i < j < |v.nodes| ==> v.nodes[i] != v.nodes[j])
    && v.inputs == q.inputs && v.outputs == q.outputs
    && |v.equations| == |q.equations|
    && forall i :: 0 <= i < |v.equations| ==>
         && v.equations[i].terms == q.equations[i].terms
         && v.equations[i].comparator == q.equations[i].comparator
         && v.equations[i].scalar == q.equations[i].scalar
  }

  /** The members of a set, each once, in the order the set is drawn from. */
  method Enumerate(S: set<Handle>) returns (s: seq<Handle>)
    ensures forall x :: x in s <==> x in S
    ensures forall i, j :: 0 <= i < j < |s| ==> s[i] != s[j]
    ensures |s| == |S|
  {
    s := [];
    var rest := S;
    while rest != {}
      invariant forall x :: x in S <==> x in s || x in rest
      invariant |s| + |rest| == |S|
      invariant forall x :: x in s ==> x !in rest
      invariant forall i, j :: 0 <= i < j < |s| ==> s[i] != s[j]
      decreases |rest|
    {
      var x :| x in rest;
      s := s + [x];
      rest := rest - {x};
    }
  }

  /** The sanity loop: every member's references are members. */
  method CheckClosed(g: Graph, S: set<Handle>) returns (ok: bool)
    ensures ok == Closed(S, g.nodes)
  {
    var rest := S;
    ok := true;
    while rest != {}
      invariant rest <= S
      invariant ok == forall h :: h in S && h !in rest ==> h < |g.nodes| && forall x :: x in ConnectedTo(g.nodes[h].kind) ==> x in S
      decreases |rest|
    {
      var h :| h in rest;
      if h >= |g.nodes| || exists x :: x in g.Refs(h) && x !in S {
        ok := false;
      }
      rest := rest - {h};
    }
  }

  /** Creates the equation objects of a list of constraints, in order. */
  method MakeEquations(cs: seq<Constraint>) returns (es: seq<Equation>)
    ensures |es| == |cs|
    ensures forall i :: 0 <= i < |cs| ==>
              es[i].terms == cs[i].terms && es[i].comparator == cs[i].comparator && es[i].scalar == cs[i].scalar
    ensures forall i :: 0 <= i < |es| ==> fresh(es[i])
  {
    es := [];
    var i := 0;
    while i < |cs|
      invariant i <= |cs| && |es| == i
      invariant forall j :: 0 <= j < i ==>
                  es[j].terms == cs[j].terms && es[j].comparator == cs[j].comparator && es[j].scalar == cs[j].scalar
      invariant forall j :: 0 <= j < i ==> fresh(es[j])
    {
      var e := new Equation(cs[i].terms, cs[i].comparator, cs[i].scalar);
      es := es + [e];
      i := i + 1;
    }
  }

  /** The inputs, the `ViewIO` and its sanity assertion, after the sanity loop has passed. */
  method FinishView(S: set<Handle>, first: Layer, outputs: seq<Handle>, cs: seq<Constraint>) returns (r: Result<ViewIO, Fault>)
    ensures var q := Finish(S, first, outputs, cs);
      && (q.Fail? ==> r.Fail? && r.error == q.error)
      && (q.Ok? ==> r.Ok? && Realizes(r.value, q.value))
    ensures r.Ok? ==> forall i :: 0 <= i < |r.value.equations| ==> fresh(r.value.equations[i])
  {
    if HasEmptyChain(first) {
      return Fail(IndexOutOfRange);
    }
    var q := Query(S, Firsts(first), outputs, cs);
    if !QuerySane(q) {
      return Fail(ReferentialIntegrity);
    }
    var nodes := Enumerate(S);
    var es := MakeEquations(cs);
    return Ok(ViewIO(nodes, q.inputs, q.outputs, es));
  }

  // ---------------------------------------------------------------------------
  // The three operations

  /** `join`: the original, the joined copy and all their outputs, without equations. */
  method Join(net: Network, mod: Network, g: Graph, ns: seq<Neuron>) returns (r: Result<ViewIO, Fault>)
    requires net != mod && InArena(net.layers, |g.nodes|) && InArena(mod.layers, |g.nodes|)
    modifies mod, g
    ensures var q := JoinQuery(net.layers, old(mod.layers), old(g.nodes), ns);
      && (q.Fail? ==> r.Fail? && r.error == q.error)
      && (q.Ok? ==> r.Ok? && Realizes(r.value, q.value))
    ensures Joinable(net.layers, old(mod.layers), ns) ==>
      mod.layers == JoinedCopy(net.layers, old(mod.layers), ns) &&
      g.nodes == JoinArena(old(g.nodes), net.layers, old(mod.layers), ns)
  {
    var d := JoinNetworks(net, mod, g, ns);
    if d.Fail? {
      return Fail(d.error);
    }
    var S := NodeSet(net.layers) + NodeSet(d.value);
    var ok := CheckClosed(g, S);
    if !ok {
      return Fail(ReferentialIntegrity);
    }
    var outs := net.layers[|net.layers| - 1] + mod.layers[|mod.layers| - 1];
    if HasEmptyChain(outs) {
      return Fail(IndexOutOfRange);
    }
    r := FinishView(S, net.layers[0], LastsOf(outs), []);
  }

  /**
    * `compareExact`: both last layers are cut down to `output`, and the query asks for the
    * signed difference of the two outputs to be at least `eps`.
    */
  method CompareExact(net: Network, mod: Network, g: Graph, ns: seq<Neuron>, comparator: string, output: nat, eps: real)
    returns (r: Result<ViewIO, Fault>)
    requires net != mod && InArena(net.layers, |g.nodes|) && InArena(mod.layers, |g.nodes|)
    modifies net, mod, g
    ensures var q := ExactQuery(old(net.layers), old(mod.layers), old(g.nodes), ns, comparator, output, eps);
      && (q.Fail? ==> r.Fail? && r.error == q.error)
      && (q.Ok? ==> r.Ok? && Realizes(r.value, q.value))
    ensures r.Ok? ==>
      && Joinable(old(net.layers), old(mod.layers), ns)
      && net.layers == KeepOutput(old(net.layers), output)
      && mod.layers == KeepOutput(JoinedCopy(old(net.layers), old(mod.layers), ns), output)
      && g.nodes == JoinArena(old(g.nodes), old(net.layers), old(mod.layers), ns)
  {
    if comparator != "gt" && comparator != "lt" {
      return Fail(BadArgument);
    }
    var d := JoinNetworks(net, mod, g, ns);
    if d.Fail? {
      return Fail(d.error);
    }
    r := ExactFinish(net, mod, g, d.value, comparator, output, eps);
  }

  /** The part of `compareExact` after `_join`. */
  method ExactFinish(net: Network, mod: Network, g: Graph, D: Layers, comparator: string, output: nat, eps: real)
    returns (r: Result<ViewIO, Fault>)
    requires net != mod && |net.layers| > 0 && |mod.layers| > 0
    modifies net, mod
    ensures var q := ExactAfterJoin(old(net.layers), old(mod.layers), D, g.nodes, comparator, output, eps);
      && (q.Fail? ==> r.Fail? && r.error == q.error)
      && (q.Ok? ==> r.Ok? && Realizes(r.value, q.value))
    ensures r.Ok? ==>
      && output < |old(net.layers)[|old(net.layers)| - 1]| && output < |old(mod.layers)[|old(mod.layers)| - 1]|
      && net.layers == KeepOutput(old(net.layers), output)
      && mod.layers == KeepOutput(old(mod.layers), output)
  {
    var N, M := net.layers, mod.layers;
    ghost var q := ExactAfterJoin(N, M, D, g.nodes, comparator, output, eps);
    if output >= |N[|N| - 1]| || output >= |M[|M| - 1]| {
      assert q == Fail(BadArgument);
      return Fail(BadArgument);
    }
    net.layers := KeepOutput(N, output);
    mod.layers := KeepOutput(M, output);
    var netLast, modLast := N[|N| - 1][output], M[|M| - 1][output];
    ghost var N2, M2 := net.layers, mod.layers;
    assert N2[|N2| - 1][0] == netLast && M2[|M2| - 1][0] == modLast;
    if |netLast| == 0 || |modLast| == 0 {
      assert q == Fail(IndexOutOfRange);
      return Fail(IndexOutOfRange);
    }
    var c := Sign(comparator);
    var eq := Constraint([(c, Last(netLast)), (-1.0 * c, Last(modLast))], GE, eps);
    var S := NodeSet(net.layers) + NodeSet(D);
    var ok := CheckClosed(g, S);
    if !ok {
      assert q == Fail(ReferentialIntegrity);
      return Fail(ReferentialIntegrity);
    }
    assert q == Finish(S, N2[0], [Last(netLast), Last(modLast)], [eq]);
    r := FinishView(S, net.layers[0], [Last(netLast), Last(modLast)], [eq]);
  }

  /** The loop of `compareMinimum` that asks `output` to beat every other output of the original. */
  method WinnerEquations(last: Layer, output: nat, eps: real) returns (cs: seq<Constraint>)
    requires !HasEmptyChain(last) && output < |last|
    ensures cs == WinnerConstraints(last, output, eps, |last|)
  {
    var winner := Last(last[output]);
    cs := [];
    var ni := 0;
    while ni < |last|
      invariant ni <= |last|
      invariant cs == WinnerConstraints(last, output, eps, ni)
    {
      if ni != output {
        cs := cs + [Constraint([(1.0, winner), (-1.0, Last(last[ni]))], LE, -eps)];
      }
      ni := ni + 1;
    }
  }

  /**
    * `compareMinimum`: the query asks for inputs on which `output` wins in the original
    * and `counter` beats it in the copy, whose last layer keeps those two outputs.
    */
  method CompareMinimum(net: Network, mod: Network, g: Graph, ns: seq<Neuron>, output: nat, counter: nat, eps: real)
    returns (r: Result<ViewIO, Fault>)
    requires net != mod && InArena(net.layers, |g.nodes|) && InArena(mod.layers, |g.nodes|)
    modifies mod, g
    ensures var q := MinimumQuery(net.layers, old(mod.layers), old(g.nodes), ns, output, counter, eps);
      && (q.Fail? ==> r.Fail? && r.error == q.error)
      && (q.Ok? ==> r.Ok? && Realizes(r.value, q.value))
    ensures r.Ok? ==>
      && Joinable(net.layers, old(mod.layers), ns)
      && var M' := JoinedCopy(net.layers, old(mod.layers), ns);
      && output < |M'[|M'| - 1]| && counter < |M'[|M'| - 1]|
      && mod.layers == KeepPair(M', output, counter)
      && g.nodes == JoinArena(old(g.nodes), net.layers, old(mod.layers), ns)
  {
    var d := JoinNetworks(net, mod, g, ns);
    if d.Fail? {
      return Fail(d.error);
    }
    r := MinimumFinish(net, mod, g, d.value, output, counter, eps);
  }

  /** The part of `compareMinimum` after `_join`. */
  method MinimumFinish(net: Network, mod: Network, g: Graph, D: Layers, output: nat, counter: nat, eps: real)
    returns (r: Result<ViewIO, Fault>)
    requires net != mod && |net.layers| > 0 && |mod.layers| > 0
    modifies mod
    ensures var q := MinimumAfterJoin(net.layers, old(mod.layers), D, g.nodes, output, counter, eps);
      && (q.Fail? ==> r.Fail? && r.error == q.error)
      && (q.Ok? ==> r.Ok? && Realizes(r.value, q.value))
    ensures r.Ok? ==>
      && output < |old(mod.layers)[|old(mod.layers)| - 1]| && counter < |old(mod.layers)[|old(mod.layers)| - 1]|
      && mod.layers == KeepPair(old(mod.layers), output, counter)
  {
    if counter == output {
      return Fail(BadArgument);
    }
    var N, M := net.layers, mod.layers;
    var last, mlast := N[|N| - 1], M[|M| - 1];
    if output >= |last| || HasEmptyChain(last) {
      return Fail(IndexOutOfRange);
    }
    var cs := WinnerEquations(last, output, eps);
    if output >= |mlast| || counter >= |mlast| || |mlast[output]| == 0 || |mlast[counter]| == 0 {
      return Fail(IndexOutOfRange);
    }
    cs := cs + [Constraint([(1.0, Last(mlast[output])), (-1.0, Last(mlast[counter]))], GE, eps)];
    mod.layers := KeepPair(M, output, counter);
    var outputs := LastsOf(last) + [Last(mlast[output]), Last(mlast[counter])];
    var S := NodeSet(N) + NodeSet(D);
    var ok := CheckClosed(g, S);
    if !ok {
      return Fail(ReferentialIntegrity);
    }
    r := FinishView(S, N[0], outputs, cs);
  }

  // ---------------------------------------------------------------------------
  // What the equations ask

  /**
    * The one equation of `compareExact`: with "gt" it holds exactly when the original's
    * output exceeds the copy's by at least `eps`, with "lt" when the copy's exceeds the
    * original's by at least `eps`.
    */
  lemma ExactEquation(N: Layers, M: Layers, A: seq<Node>, ns: seq<Neuron>, comparator: string, output: nat, eps: real,
                      x: Handle -> real)
    requires InArena(N, |A|) && InArena(M, |A|)
    requires ExactQuery(N, M, A, ns, comparator, output, eps).Ok?
    ensures var q := ExactQuery(N, M, A, ns, comparator, output, eps).value;
      && (comparator == "gt" || comparator == "lt") && Joinable(N, M, ns)
      && var M' := JoinedCopy(N, M, ns);
      && output < |N[|N| - 1]| && output < |M'[|M'| - 1]|
      && |N[|N| - 1][output]| > 0 && |M'[|M'| - 1][output]| > 0
      && var netOut, modOut := Last(N[|N| - 1][output]), Last(M'[|M'| - 1][output]);
      && q.outputs == [netOut, modOut]
      && |q.equations| == 1
      && (Holds(q.equations[0].terms, q.equations[0].comparator, q.equations[0].scalar, x) <==>
            if comparator == "gt" then x(netOut) - x(modOut) >= eps else x(modOut) - x(netOut) >= eps)
  {
    var M' := JoinedCopy(N, M, ns);
    var c := Sign(comparator);
    var netOut, modOut := Last(N[|N| - 1][output]), Last(M'[|M'| - 1][output]);
    LhsPair(c, netOut, -1.0 * c, modOut, x);
  }

  /** Every constraint of the list holds under `x`. */
  predicate AllHold(cs: seq<Constraint>, x: Handle -> real)
  {
    forall i :: 0 <= i < |cs| ==> Holds(cs[i].terms, cs[i].comparator, cs[i].scalar, x)
  }

  lemma AllHoldAppend(cs: seq<Constraint>, c: Constraint, x: Handle -> real)
    ensures AllHold(cs + [c], x) <==> AllHold(cs, x) && Holds(c.terms, c.comparator, c.scalar, x)
  {
    assert forall i :: 0 <= i < |cs| ==> (cs + [c])[i] == cs[i];
    assert (cs + [c])[|cs|] == c;
  }

  /** `output` is at least `eps` below every other of the first `n` outputs. */
  predicate Wins(last: Layer, output: nat, eps: real, n: nat, x: Handle -> real)
    requires !HasEmptyChain(last) && output < |last| && n <= |last|
  {
    forall ni :: 0 <= ni < n && ni != output ==> x(Last(last[output])) - x(Last(last[ni])) <= -eps
  }

  /** The loop's equations hold exactly when `output` is at least `eps` below each other output. */
  lemma {:induction false} WinnerConstraintsHold(last: Layer, output: nat, eps: real, n: nat, x: Handle -> real)
    requires !HasEmptyChain(last) && output < |last| && n <= |last|
    ensures AllHold(WinnerConstraints(last, output, eps, n), x) <==> Wins(last, output, eps, n, x)
  {
    if n > 0 {
      WinnerConstraintsHold(last, output, eps, n - 1, x);
      var cs' := WinnerConstraints(last, output, eps, n - 1);
      var w := Last(last[output]);
      if n - 1 != output {
        var C := Constraint([(1.0, w), (-1.0, Last(last[n - 1]))], LE, -eps);
        LhsPair(1.0, w, -1.0, Last(last[n - 1]), x);
        AllHoldAppend(cs', C, x);
        assert Holds(C.terms, C.comparator, C.scalar, x) <==> x(w) - x(Last(last[n - 1])) <= -eps;
      }
    }
  }

  /**
    * The equations of `compareMinimum`: they hold exactly when `output` is the smallest
    * original output by a margin of `eps` and the copy's `output` exceeds its `counter` by
    * at least `eps`. The outputs are all of the original's followed by those two.
    */
  lemma MinimumEquations(N: Layers, M: Layers, A: seq<Node>, ns: seq<Neuron>, output: nat, counter: nat, eps: real,
                         x: Handle -> real)
    requires InArena(N, |A|) && InArena(M, |A|)
    requires MinimumQuery(N, M, A, ns, output, counter, eps).Ok?
    ensures var q := MinimumQuery(N, M, A, ns, output, counter, eps).value;
      && Joinable(N, M, ns) && output != counter
      && var M' := JoinedCopy(N, M, ns); var last, mlast := N[|N| - 1], M'[|M'| - 1];
      && output < |last| && !HasEmptyChain(last)
      && output < |mlast| && counter < |mlast| && |mlast[output]| > 0 && |mlast[counter]| > 0
      && q.outputs == LastsOf(last) + [Last(mlast[output]), Last(mlast[counter])]
      && |q.equations| == |last|
      && (AllHold(q.equations, x) <==>
          && (forall ni :: 0 <= ni < |last| && ni != output ==> x(Last(last[output])) - x(Last(last[ni])) <= -eps)
          && x(Last(mlast[output])) - x(Last(mlast[counter])) >= eps)
  {
    var M' := JoinedCopy(N, M, ns);
    var last, mlast := N[|N| - 1], M'[|M'| - 1];
    assert MinimumQuery(N, M, A, ns, output, counter, eps)
        == MinimumAfterJoin(N, M', JoinDup(N, M, ns), JoinArena(A, N, M, ns), output, counter, eps);
    var q := MinimumQuery(N, M, A, ns, output, counter, eps).value;
    var cs := WinnerConstraints(last, output, eps, |last|);
    WinnerConstraintsHold(last, output, eps, |last|, x);
    LhsPair(1.0, Last(mlast[output]), -1.0, Last(mlast[counter]), x);
    var C := Constraint([(1.0, Last(mlast[output])), (-1.0, Last(mlast[counter]))], GE, eps);
    assert q.equations == cs + [C];
    AllHoldAppend(cs, C, x);
  }

  // ---------------------------------------------------------------------------
  // The table of `_join`

  /** The node of the copy that neuron `i` of the join layer maps: its first node if overridden, else its last. */
  function Key(M0: Layer, fdl: nat, ns: seq<Neuron>, i: nat): Handle
    requires i < |M0| && |M0[i]| > 0
  {
    if (fdl, i) in ns then M0[i][0] else Last(M0[i])
  }

  /** The original's node it is mapped to. */
  function Image(N0: Layer, fdl: nat, ns: seq<Neuron>, i: nat): Handle
    requires i < |N0| && |N0[i]| > 0
  {
    if (fdl, i) in ns then N0[i][0] else Last(N0[i])
  }

  predicate KeysDistinct(N0: Layer, M0: Layer, fdl: nat, ns: seq<Neuron>, n: nat)
    requires PairableUpTo(N0, M0, n)
  {
    forall i, j :: 0 <= i < j < n ==> PairsAt(N0, M0, i) && PairsAt(N0, M0, j) && Key(M0, fdl, ns, i) != Key(M0, fdl, ns, j)
  }

  /** With distinct keys, the table maps each neuron's key to its image and has no other keys. */
  lemma {:induction false} JoinTableUpToAt(N0: Layer, M0: Layer, fdl: nat, ns: seq<Neuron>, n: nat)
    requires PairableUpTo(N0, M0, n) && KeysDistinct(N0, M0, fdl, ns, n)
    ensures var t := JoinTableUpTo(N0, M0, fdl, ns, n);
      && (forall i :: 0 <= i < n && PairsAt(N0, M0, i) ==>
            Key(M0, fdl, ns, i) in t && t[Key(M0, fdl, ns, i)] == Image(N0, fdl, ns, i))
      && (forall h :: h in t ==> exists i :: 0 <= i < n && PairsAt(N0, M0, i) && h == Key(M0, fdl, ns, i))
  {
    if n > 0 {
      assert PairableUpTo(N0, M0, n - 1);
      assert KeysDistinct(N0, M0, fdl, ns, n - 1);
      JoinTableUpToAt(N0, M0, fdl, ns, n - 1);
      assert PairsAt(N0, M0, n - 1);
      var t0 := JoinTableUpTo(N0, M0, fdl, ns, n - 1);
      var k := Key(M0, fdl, ns, n - 1);
      var t := JoinTableUpTo(N0, M0, fdl, ns, n);
      assert t == t0[k := Image(N0, fdl, ns, n - 1)];
      forall i | 0 <= i < n && PairsAt(N0, M0, i)
        ensures Key(M0, fdl, ns, i) in t && t[Key(M0, fdl, ns, i)] == Image(N0, fdl, ns, i)
      {
        if i < n - 1 {
          assert Key(M0, fdl, ns, i) != k;
        }
      }
      forall h | h in t ensures exists i :: 0 <= i < n && PairsAt(N0, M0, i) && h == Key(M0, fdl, ns, i) {
        if h != k {
          assert h in t0;
          var i :| 0 <= i < n - 1 && PairsAt(N0, M0, i) && h == Key(M0, fdl, ns, i);
          assert 0 <= i < n && PairsAt(N0, M0, i) && h == Key(M0, fdl, ns, i);
        } else {
          assert 0 <= n - 1 < n && PairsAt(N0, M0, n - 1) && h == Key(M0, fdl, ns, n - 1);
        }
      }
    }
  }

  /** In a copy whose nodes each stand at one position, the keys of the join layer are distinct. */
  lemma DistinctKeys(N: Layers, M: Layers, ns: seq<Neuron>)
    requires Joinable(N, M, ns) && Distinct(M)
    ensures var fdl := MinLayer(ns); KeysDistinct(N[fdl], M[fdl], fdl, ns, |M[fdl]|)
  {
    var fdl := MinLayer(ns);
    var N0, M0 := N[fdl], M[fdl];
    assert Pairable(N0, M0);
    forall i, j | 0 <= i < j < |M0|
      ensures PairsAt(N0, M0, i) && PairsAt(N0, M0, j) && Key(M0, fdl, ns, i) != Key(M0, fdl, ns, j)
    {
      assert PairsAt(N0, M0, i) && PairsAt(N0, M0, j);
      var ki := if (fdl, i) in ns then 0 else |M0[i]| - 1;
      var kj := if (fdl, j) in ns then 0 else |M0[j]| - 1;
      assert IsPos(M, fdl, i, ki) && IsPos(M, fdl, j, kj);
    }
  }

  /**
    * `_join`'s table, for a copy whose nodes each stand at one position: an untouched
    * neuron's last node maps to the original neuron's last node, an overridden neuron's
    * first node to the original neuron's first node, and nothing else is mapped.
    */
  lemma JoinTableMeaning(N: Layers, M: Layers, ns: seq<Neuron>)
    requires Joinable(N, M, ns) && Distinct(M)
    ensures var fdl := MinLayer(ns); var N0, M0, t := N[fdl], M[fdl], JoinTable(N, M, ns);
      && (forall i :: 0 <= i < |M0| && (fdl, i) !in ns ==>
            i < |N0| && |N0[i]| > 0 && |M0[i]| > 0 && Last(M0[i]) in t && t[Last(M0[i])] == Last(N0[i]))
      && (forall i :: 0 <= i < |M0| && (fdl, i) in ns ==>
            i < |N0| && |N0[i]| > 0 && |M0[i]| > 0 && M0[i][0] in t && t[M0[i][0]] == N0[i][0])
      && (forall h :: h in t ==> exists i :: 0 <= i < |M0| && PairsAt(N0, M0, i) && h == Key(M0, fdl, ns, i))
  {
    var fdl := MinLayer(ns);
    var N0, M0 := N[fdl], M[fdl];
    assert Pairable(N0, M0);
    DistinctKeys(N, M, ns);
    JoinTableUpToAt(N0, M0, fdl, ns, |M0|);
    var t := JoinTable(N, M, ns);
    forall i | 0 <= i < |M0|
      ensures PairsAt(N0, M0, i) && Key(M0, fdl, ns, i) in t && t[Key(M0, fdl, ns, i)] == Image(N0, fdl, ns, i)
    {
      assert PairsAt(N0, M0, i);
    }
    assert t == JoinTableUpTo(N0, M0, fdl, ns, |M0|);
    forall h | h in t ensures exists i :: 0 <= i < |M0| && PairsAt(N0, M0, i) && h == Key(M0, fdl, ns, i) {
      assert h in JoinTableUpTo(N0, M0, fdl, ns, |M0|);
      var i :| 0 <= i < |M0| && PairsAt(N0, M0, i) && h == Key(M0, fdl, ns, i);
    }
    forall i | 0 <= i < |M0| && (fdl, i) !in ns
      ensures i < |N0| && |N0[i]| > 0 && |M0[i]| > 0 && Last(M0[i]) in t && t[Last(M0[i])] == Last(N0[i])
    {
      assert PairsAt(N0, M0, i) && Key(M0, fdl, ns, i) == Last(M0[i]) && Image(N0, fdl, ns, i) == Last(N0[i]);
    }
    forall i | 0 <= i < |M0| && (fdl, i) in ns
      ensures i < |N0| && |N0[i]| > 0 && |M0[i]| > 0 && M0[i][0] in t && t[M0[i][0]] == N0[i][0]
    {
      assert PairsAt(N0, M0, i) && Key(M0, fdl, ns, i) == M0[i][0] && Image(N0, fdl, ns, i) == N0[i][0];
    }
  }

  /**
    * When no value of `t` is also a key, translating a node twice is translating it once,
    * so the listed nodes may be translated in any order and with any repetition.
    */
  lemma {:induction false} TranslateSeqOnce(A: seq<Node>, hs: seq<Handle>, t: Trans)
    requires forall i :: 0 <= i < |hs| ==> hs[i] < |A|
    requires forall h :: h in t ==> t[h] !in t
    ensures TranslateSeq(A, hs, t) == TranslateAt(A, (set h | h in hs), t)
    decreases |hs|
  {
    if hs == [] {
      assert TranslateAt(A, {}, t) == A;
    } else {
      var h0 := hs[0];
      var A1 := A[h0 := A[h0].(kind := Translated(A[h0].kind, t))];
      TranslateSeqOnce(A1, hs[1..], t);
      var R, R' := TranslateAt(A1, (set h | h in hs[1..]), t), TranslateAt(A, (set h | h in hs), t);
      forall h | 0 <= h < |A| ensures R[h] == R'[h] {
        if h == h0 {
          TranslatedIdempotent(A[h0].kind, t);
        }
      }
      assert R == R';
    }
  }

  /**
    * When the original and the copy share no node, no value of the table is a key: every
    * key is a node of the copy and every value a node of the original.
    */
  lemma JoinTableSettles(N: Layers, M: Layers, ns: seq<Neuron>)
    requires Joinable(N, M, ns) && Distinct(M) && NodeSet(N) !! NodeSet(M)
    ensures var t := JoinTable(N, M, ns);
      && (forall h :: h in t ==> h in NodeSet(M) && t[h] in NodeSet(N))
      && (forall h :: h in t ==> t[h] !in t)
  {
    var fdl := MinLayer(ns);
    var N0, M0, t := N[fdl], M[fdl], JoinTable(N, M, ns);
    JoinTableMeaning(N, M, ns);
    forall h | h in t ensures h in NodeSet(M) && t[h] in NodeSet(N) {
      var i :| 0 <= i < |M0| && PairsAt(N0, M0, i) && h == Key(M0, fdl, ns, i);
      if (fdl, i) in ns {
        PosInNodeSet(M, fdl, i, 0);
        PosInNodeSet(N, fdl, i, 0);
      } else {
        PosInNodeSet(M, fdl, i, |M0[i]| - 1);
        PosInNodeSet(N, fdl, i, |N0[i]| - 1);
      }
    }
  }

  // ---------------------------------------------------------------------------
  // When the joined query passes its sanity loop

  /** `ch` is chain `i` of `layer` for some overridden neuron `(l, i)`. */
  predicate OverriddenChain(layer: Layer, l: nat, ns: seq<Neuron>, ch: Chain)
  {
    exists i :: 0 <= i < |layer| && (l, i) in ns && ch == layer[i]
  }

  /** The kept chains are exactly the overridden ones. */
  lemma {:induction false} KeptMembers(layer: Layer, l: nat, ns: seq<Neuron>)
    ensures forall j :: 0 <= j < |Kept(layer, l, ns)| ==> OverriddenChain(layer, l, ns, Kept(layer, l, ns)[j])
    ensures forall i :: 0 <= i < |layer| && (l, i) in ns ==> layer[i] in Kept(layer, l, ns)
    decreases |layer|
  {
    if layer != [] {
      var n := |layer| - 1;
      var P := layer[..n];
      KeptMembers(P, l, ns);
      var K, KP := Kept(layer, l, ns), Kept(P, l, ns);
      assert K == KP + (if (l, n) in ns then [layer[n]] else []);
      forall j | 0 <= j < |K| ensures OverriddenChain(layer, l, ns, K[j]) {
        if j < |KP| {
          assert OverriddenChain(P, l, ns, KP[j]);
          var i :| 0 <= i < |P| && (l, i) in ns && KP[j] == P[i];
          assert K[j] == layer[i];
        } else {
          assert K[j] == layer[n];
        }
      }
      forall i | 0 <= i < |layer| && (l, i) in ns ensures layer[i] in K {
        if i < n {
          assert layer[i] == P[i];
        }
      }
    }
  }

  /** Which node of chain `c` of the join layer is a key: the first if overridden, else the last. */
  function KeyPos(M0: Layer, fdl: nat, ns: seq<Neuron>, c: nat): nat
    requires c < |M0| && |M0[c]| > 0
  {
    if (fdl, c) in ns then 0 else |M0[c]| - 1
  }

  /** Only the keys of the join layer are mapped by `t`. */
  ghost predicate OnlyKeysMapped(M: Layers, fdl: nat, ns: seq<Neuron>, t: Trans)
  {
    forall l, c, k :: IsPos(M, l, c, k) && M[l][c][k] in t ==> l == fdl && k == KeyPos(M[l], fdl, ns, c)
  }

  /** Every key of the join layer is mapped to its image. */
  predicate MapsKeys(N0: Layer, M0: Layer, fdl: nat, ns: seq<Neuron>, t: Trans)
  {
    forall i :: 0 <= i < |M0| ==>
      PairsAt(N0, M0, i) && Key(M0, fdl, ns, i) in t && t[Key(M0, fdl, ns, i)] == Image(N0, fdl, ns, i)
  }

  lemma OnlyKeysMappedHolds(N: Layers, M: Layers, ns: seq<Neuron>)
    requires Joinable(N, M, ns) && Distinct(M)
    ensures OnlyKeysMapped(M, MinLayer(ns), ns, JoinTable(N, M, ns))
    ensures MapsKeys(N[MinLayer(ns)], M[MinLayer(ns)], MinLayer(ns), ns, JoinTable(N, M, ns))
  {
    var fdl := MinLayer(ns);
    var N0, M0, t := N[fdl], M[fdl], JoinTable(N, M, ns);
    JoinTableMeaning(N, M, ns);
    forall l, c, k | IsPos(M, l, c, k) && M[l][c][k] in t ensures l == fdl && k == KeyPos(M[l], fdl, ns, c) {
      var i :| 0 <= i < |M0| && PairsAt(N0, M0, i) && M[l][c][k] == Key(M0, fdl, ns, i);
      assert IsPos(M, fdl, i, KeyPos(M0, fdl, ns, i));
    }
    forall i | 0 <= i < |M0|
      ensures PairsAt(N0, M0, i) && Key(M0, fdl, ns, i) in t && t[Key(M0, fdl, ns, i)] == Image(N0, fdl, ns, i)
    {
      assert PairsAt(N0, M0, i);
    }
  }

  /** The arena `_join` leaves once its table has settled: each node of the copy translated once. */
  function SettledArena(A: seq<Node>, N: Layers, M: Layers, ns: seq<Neuron>): (r: seq<Node>)
    requires Joinable(N, M, ns)
    ensures |r| == |A|
  {
    TranslateAt(A, NodeSet(JoinedCopy(N, M, ns)), JoinTable(N, M, ns))
  }

  /** When the original and the copy share no node, `_join`'s translation loop is one pass over the copy. */
  lemma JoinArenaSettled(A: seq<Node>, N: Layers, M: Layers, ns: seq<Neuron>)
    requires Joinable(N, M, ns) && InArena(N, |A|) && InArena(M, |A|)
    requires Distinct(M) && NodeSet(N) !! NodeSet(M)
    ensures JoinArena(A, N, M, ns) == SettledArena(A, N, M, ns)
  {
    var M', t := JoinedCopy(N, M, ns), JoinTable(N, M, ns);
    JoinTableSettles(N, M, ns);
    JoinedCopyInArena(N, M, ns, |A|);
    FlattenMembersAll(M');
    assert forall i :: 0 <= i < |Flatten(M')| ==> Flatten(M')[i] in NodeSet(M');
    TranslateSeqOnce(A, Flatten(M'), t);
    assert (set h | h in Flatten(M')) == NodeSet(M');
  }

  /** What the proofs below need to know of the table. */
  ghost predicate TableFacts(N: Layers, M: Layers, ns: seq<Neuron>)
    requires Joinable(N, M, ns)
  {
    var fdl, t := MinLayer(ns), JoinTable(N, M, ns);
    && OnlyKeysMapped(M, fdl, ns, t)
    && MapsKeys(N[fdl], M[fdl], fdl, ns, t)
    && forall h :: h in NodeSet(N) ==> h !in t
  }

  lemma TableFactsHold(N: Layers, M: Layers, ns: seq<Neuron>)
    requires Joinable(N, M, ns) && Distinct(M) && NodeSet(N) !! NodeSet(M)
    ensures TableFacts(N, M, ns)
  {
    OnlyKeysMappedHolds(N, M, ns);
    JoinTableSettles(N, M, ns);
  }

  /** Every node `_join` keeps is a node of the joined copy. */
  lemma DupInCopy(N: Layers, M: Layers, ns: seq<Neuron>)
    requires Joinable(N, M, ns)
    ensures forall h :: h in NodeSet(JoinDup(N, M, ns)) ==> h in NodeSet(JoinedCopy(N, M, ns))
  {
    var fdl, M', D := MinLayer(ns), JoinedCopy(N, M, ns), JoinDup(N, M, ns);
    KeptMembers(M'[fdl], fdl, ns);
    forall h | h in NodeSet(D) ensures h in NodeSet(M') {
      var l, c, k :| IsPos(D, l, c, k) && D[l][c][k] == h;
      assert IsPos(D, l, c, k);
      assert 0 <= l < |D|;
      if l == 0 {
        assert OverriddenChain(M'[fdl], fdl, ns, D[0][c]);
        var i :| 0 <= i < |M'[fdl]| && (fdl, i) in ns && D[0][c] == M'[fdl][i];
        PosInNodeSet(M', fdl, i, k);
      } else {
        DupLayer(N, M, ns, l, c, k);
      }
    }
  }

  /** Past the join layer, `_join` keeps the copy's layers as they are. */
  lemma DupLayer(N: Layers, M: Layers, ns: seq<Neuron>, l: int, c: int, k: int)
    requires Joinable(N, M, ns) && 0 < l && IsPos(JoinDup(N, M, ns), l, c, k)
    ensures JoinDup(N, M, ns)[l][c][k] in NodeSet(JoinedCopy(N, M, ns))
  {
    var M', D := JoinedCopy(N, M, ns), JoinDup(N, M, ns);
    var l' := MinLayer(ns) + l;
    assert D[l] == M'[l'];
    PosInNodeSet(M', l', c, k);
  }

  /** A reference of a translated node is the image of a reference of the node. */
  lemma RefOrigin(A: seq<Node>, hs: set<Handle>, t: Trans, h: Handle, x: Handle) returns (y: Handle)
    requires h < |A| && h in hs && x in ConnectedTo(TranslateAt(A, hs, t)[h].kind)
    ensures y in ConnectedTo(A[h].kind) && x == Apply(t, y)
  {
    TranslatedShape(A[h].kind, t);
    var i :| 0 <= i < |ConnectedTo(TranslateAt(A, hs, t)[h].kind)| && ConnectedTo(TranslateAt(A, hs, t)[h].kind)[i] == x;
    y := ConnectedTo(A[h].kind)[i];
  }

  /** The original's nodes read what they read before `_join`. */
  lemma OriginalKept(A: seq<Node>, N: Layers, M: Layers, ns: seq<Neuron>, h: Handle)
    requires Joinable(N, M, ns) && SaneIn(N, A) && TableFacts(N, M, ns) && h in NodeSet(N)
    ensures h < |A| && SettledArena(A, N, M, ns)[h].kind == A[h].kind
  {
    TranslatedFixes(A[h].kind, JoinTable(N, M, ns));
  }

  /** Where the nodes `_join` keeps may read from: each other, and the original's last nodes around the join layer. */
  function DupReach(N: Layers, M: Layers, ns: seq<Neuron>): set<Handle>
    requires Joinable(N, M, ns)
  {
    var fdl, D := MinLayer(ns), JoinDup(N, M, ns);
    NodeSet(D) + (if |D| > 1 then Lasts(N[fdl]) else {}) + (if fdl > 0 then Lasts(N[fdl - 1]) else {})
  }

  /** A reference allowed by the layered shape. */
  lemma LayeredRefs(L: Layers, A: seq<Node>, l: nat, c: nat, k: nat, x: Handle)
    requires Layered(L, A) && IsPos(L, l, c, k) && x in ConnectedTo(A[L[l][c][k]].kind)
    ensures x in Allowed(L, l, c, k)
  {
  }

  /** Chain `c` of the kept join layer: an overridden neuron `i`, starting from the original's first node. */
  lemma KeptChainAt(N: Layers, M: Layers, ns: seq<Neuron>, c: nat) returns (i: nat)
    requires Joinable(N, M, ns) && c < |JoinDup(N, M, ns)[0]|
    ensures var fdl := MinLayer(ns);
      && i < |M[fdl]| && (fdl, i) in ns && PairsAt(N[fdl], M[fdl], i)
      && JoinDup(N, M, ns)[0][c] == JoinedCopy(N, M, ns)[fdl][i] == [N[fdl][i][0]] + M[fdl][i][1..]
  {
    var fdl := MinLayer(ns);
    var M', D := JoinedCopy(N, M, ns), JoinDup(N, M, ns);
    KeptMembers(M'[fdl], fdl, ns);
    assert OverriddenChain(M'[fdl], fdl, ns, D[0][c]);
    i :| 0 <= i < |M'[fdl]| && (fdl, i) in ns && D[0][c] == M'[fdl][i];
    assert Pairable(N[fdl], M[fdl]);
    assert PairsAt(N[fdl], M[fdl], i);
  }

  /** The head of a kept chain of the join layer is the original's node and reads what it read. */
  lemma DupRefsHead(A: seq<Node>, N: Layers, M: Layers, ns: seq<Neuron>, c: nat, x: Handle)
    requires Joinable(N, M, ns) && Layered(N, A) && TableFacts(N, M, ns)
    requires IsPos(JoinDup(N, M, ns), 0, c, 0) && JoinDup(N, M, ns)[0][c][0] < |A|
    requires x in ConnectedTo(SettledArena(A, N, M, ns)[JoinDup(N, M, ns)[0][c][0]].kind)
    ensures x in DupReach(N, M, ns)
  {
    var fdl := MinLayer(ns);
    var i := KeptChainAt(N, M, ns, c);
    var h := N[fdl][i][0];
    assert JoinDup(N, M, ns)[0][c][0] == h;
    PosInNodeSet(N, fdl, i, 0);
    LayeredIsSane(N, A);
    OriginalKept(A, N, M, ns, h);
    LayeredRefs(N, A, fdl, i, 0, x);
  }

  /** A later node of a kept chain of the join layer reads its predecessor, translated. */
  lemma DupRefsTail(A: seq<Node>, N: Layers, M: Layers, ns: seq<Neuron>, c: nat, k: nat, x: Handle)
    requires Joinable(N, M, ns) && Layered(M, A) && TableFacts(N, M, ns)
    requires IsPos(JoinDup(N, M, ns), 0, c, k) && k > 0 && JoinDup(N, M, ns)[0][c][k] < |A|
    requires x in ConnectedTo(SettledArena(A, N, M, ns)[JoinDup(N, M, ns)[0][c][k]].kind)
    ensures x in DupReach(N, M, ns)
  {
    var fdl := MinLayer(ns);
    var M0, M', D, t := M[fdl], JoinedCopy(N, M, ns), JoinDup(N, M, ns), JoinTable(N, M, ns);
    var i := KeptChainAt(N, M, ns, c);
    var h := D[0][c][k];
    assert h == M0[i][k] == M'[fdl][i][k];
    PosInNodeSet(M', fdl, i, k);
    var y := RefOrigin(A, NodeSet(M'), t, h, x);
    LayeredRefs(M, A, fdl, i, k, y);
    assert y == M0[i][k - 1];
    if k == 1 {
      assert Key(M0, fdl, ns, i) == y;
      PosInNodeSet(D, 0, c, 0);
    } else {
      assert IsPos(M, fdl, i, k - 1);
      assert D[0][c][k - 1] == y;
      PosInNodeSet(D, 0, c, k - 1);
    }
  }

  /** Past the join layer, `_join` keeps the copy's layers as they are. */
  lemma DupLater(N: Layers, M: Layers, ns: seq<Neuron>, l: nat)
    requires Joinable(N, M, ns) && 1 <= l < |JoinDup(N, M, ns)|
    ensures MinLayer(ns) + l < |M|
    ensures JoinDup(N, M, ns)[l] == JoinedCopy(N, M, ns)[MinLayer(ns) + l] == M[MinLayer(ns) + l]
  {
  }

  /** Past the join layer, a node other than a chain head of the layer right after it reads an untranslated node. */
  lemma DupRefsInner(A: seq<Node>, N: Layers, M: Layers, ns: seq<Neuron>, l: nat, c: nat, k: nat, x: Handle)
    requires Joinable(N, M, ns) && Layered(M, A) && TableFacts(N, M, ns)
    requires 1 <= l && (k > 0 || l >= 2)
    requires IsPos(JoinDup(N, M, ns), l, c, k) && JoinDup(N, M, ns)[l][c][k] < |A|
    requires x in ConnectedTo(SettledArena(A, N, M, ns)[JoinDup(N, M, ns)[l][c][k]].kind)
    ensures x in DupReach(N, M, ns)
  {
    var y := DupRefOrigin(A, N, M, ns, l, c, k, x);
    InnerKept(N, M, ns, l, c, k, y);
  }

  /** `InnerRefKept` for `_join`'s own network and table. */
  lemma InnerKept(N: Layers, M: Layers, ns: seq<Neuron>, l: nat, c: nat, k: nat, y: Handle)
    requires Joinable(N, M, ns) && TableFacts(N, M, ns)
    requires 1 <= l && (k > 0 || l >= 2) && IsPos(JoinDup(N, M, ns), l, c, k)
    requires IsPos(M, MinLayer(ns) + l, c, k) && y in Allowed(M, MinLayer(ns) + l, c, k)
    ensures y !in JoinTable(N, M, ns) && y in NodeSet(JoinDup(N, M, ns))
  {
    InnerShape(N, M, ns, l, c, k);
    KeysOnly(N, M, ns);
    InnerRefKept(M, MinLayer(ns), ns, JoinTable(N, M, ns), JoinDup(N, M, ns), l, c, k, y);
  }

  /** Only the join layer's keys are mapped. */
  lemma KeysOnly(N: Layers, M: Layers, ns: seq<Neuron>)
    requires Joinable(N, M, ns) && TableFacts(N, M, ns)
    ensures OnlyKeysMapped(M, MinLayer(ns), ns, JoinTable(N, M, ns))
  {
  }

  /** Past the join layer, `_join` keeps the copy's layers, which are the copy's own. */
  lemma InnerShape(N: Layers, M: Layers, ns: seq<Neuron>, l: nat, c: nat, k: nat)
    requires Joinable(N, M, ns) && 1 <= l && (k > 0 || l >= 2) && IsPos(JoinDup(N, M, ns), l, c, k)
    ensures MinLayer(ns) + l < |M| && JoinDup(N, M, ns)[l] == M[MinLayer(ns) + l]
    ensures k == 0 ==> JoinDup(N, M, ns)[l - 1] == M[MinLayer(ns) + l - 1]
  {
    DupLater(N, M, ns, l);
    if k == 0 {
      DupLater(N, M, ns, l - 1);
    }
  }

  /** A reference of a node past the join layer is the image of what the copy's node reads. */
  lemma DupRefOrigin(A: seq<Node>, N: Layers, M: Layers, ns: seq<Neuron>, l: nat, c: nat, k: nat, x: Handle)
    returns (y: Handle)
    requires Joinable(N, M, ns) && Layered(M, A) && 1 <= l
    requires IsPos(JoinDup(N, M, ns), l, c, k) && JoinDup(N, M, ns)[l][c][k] < |A|
    requires x in ConnectedTo(SettledArena(A, N, M, ns)[JoinDup(N, M, ns)[l][c][k]].kind)
    ensures IsPos(M, MinLayer(ns) + l, c, k)
    ensures y in Allowed(M, MinLayer(ns) + l, c, k) && x == Apply(JoinTable(N, M, ns), y)
  {
    DupPos(N, M, ns, l, c, k);
    y := SettledRef(A, N, M, ns, JoinDup(N, M, ns)[l][c][k], x);
    LayeredRefs(M, A, MinLayer(ns) + l, c, k, y);
  }

  /** A position past the join layer of `_join`'s network is the same position of the copy and of `M`. */
  lemma DupPos(N: Layers, M: Layers, ns: seq<Neuron>, l: nat, c: nat, k: nat)
    requires Joinable(N, M, ns) && 1 <= l && IsPos(JoinDup(N, M, ns), l, c, k)
    ensures IsPos(M, MinLayer(ns) + l, c, k) && JoinDup(N, M, ns)[l][c][k] == M[MinLayer(ns) + l][c][k]
    ensures JoinDup(N, M, ns)[l][c][k] in NodeSet(JoinedCopy(N, M, ns))
  {
    var l' := MinLayer(ns) + l;
    DupLater(N, M, ns, l);
    assert IsPos(JoinedCopy(N, M, ns), l', c, k);
    PosInNodeSet(JoinedCopy(N, M, ns), l', c, k);
  }

  /** A reference of a node of the copy, after the translation, is the image of one before it. */
  lemma SettledRef(A: seq<Node>, N: Layers, M: Layers, ns: seq<Neuron>, h: Handle, x: Handle) returns (y: Handle)
    requires Joinable(N, M, ns) && h < |A| && h in NodeSet(JoinedCopy(N, M, ns))
    requires x in ConnectedTo(SettledArena(A, N, M, ns)[h].kind)
    ensures y in ConnectedTo(A[h].kind) && x == Apply(JoinTable(N, M, ns), y)
  {
    y := RefOrigin(A, NodeSet(JoinedCopy(N, M, ns)), JoinTable(N, M, ns), h, x);
  }

  /**
    * What a node past the join layer (other than a head right after it) reads is not a key,
    * and is kept in `D`, whose layers from 1 on are the copy's layers from fdl + 1 on.
    */
  lemma InnerRefKept(M: Layers, fdl: nat, ns: seq<Neuron>, t: Trans, D: Layers, l: nat, c: nat, k: nat, y: Handle)
    requires OnlyKeysMapped(M, fdl, ns, t)
    requires 1 <= l < |D| && fdl + l < |M| && D[l] == M[fdl + l]
    requires k == 0 ==> 2 <= l && D[l - 1] == M[fdl + l - 1]
    requires IsPos(M, fdl + l, c, k) && y in Allowed(M, fdl + l, c, k)
    ensures y !in t && y in NodeSet(D)
  {
    if k > 0 {
      assert IsPos(D, l, c, k - 1) && y == D[l][c][k - 1];
      NotKey(M, fdl, ns, t, fdl + l, c, k - 1);
      PosInNodeSet(D, l, c, k - 1);
    } else {
      var L := M[fdl + l - 1];
      var j :| 0 <= j < |L| && |L[j]| > 0 && y == L[j][|L[j]| - 1];
      assert IsPos(D, l - 1, j, |L[j]| - 1) && y == D[l - 1][j][|L[j]| - 1];
      NotKey(M, fdl, ns, t, fdl + l - 1, j, |L[j]| - 1);
      PosInNodeSet(D, l - 1, j, |L[j]| - 1);
    }
  }

  /** A node of the copy outside the join layer is not a key of the table. */
  lemma NotKey(M: Layers, fdl: nat, ns: seq<Neuron>, t: Trans, l: nat, c: nat, k: nat)
    requires OnlyKeysMapped(M, fdl, ns, t) && IsPos(M, l, c, k) && l != fdl
    ensures M[l][c][k] !in t
  {
  }

  /** A chain head of the layer right after the join layer reads the image of a last node of the join layer. */
  lemma AfterJoinSource(A: seq<Node>, N: Layers, M: Layers, ns: seq<Neuron>, c: nat, x: Handle) returns (j: nat)
    requires Joinable(N, M, ns) && Layered(M, A)
    requires IsPos(JoinDup(N, M, ns), 1, c, 0) && JoinDup(N, M, ns)[1][c][0] < |A|
    requires x in ConnectedTo(SettledArena(A, N, M, ns)[JoinDup(N, M, ns)[1][c][0]].kind)
    ensures var M0 := M[MinLayer(ns)]; j < |M0| && |M0[j]| > 0 && x == Apply(JoinTable(N, M, ns), Last(M0[j]))
  {
    var fdl := MinLayer(ns);
    var M0, M', D, t := M[fdl], JoinedCopy(N, M, ns), JoinDup(N, M, ns), JoinTable(N, M, ns);
    DupLater(N, M, ns, 1);
    var h := D[1][c][0];
    PosInNodeSet(M', fdl + 1, c, 0);
    var y := RefOrigin(A, NodeSet(M'), t, h, x);
    LayeredRefs(M, A, fdl + 1, c, 0, y);
    j :| 0 <= j < |M0| && |M0[j]| > 0 && y == M0[j][|M0[j]| - 1];
  }

  /** The image of an overridden neuron's last node is a node `_join` keeps. */
  lemma OverriddenLastKept(N: Layers, M: Layers, ns: seq<Neuron>, j: nat)
    requires Joinable(N, M, ns) && TableFacts(N, M, ns)
    requires j < |M[MinLayer(ns)]| && (MinLayer(ns), j) in ns
    ensures |M[MinLayer(ns)][j]| > 0
    ensures Apply(JoinTable(N, M, ns), Last(M[MinLayer(ns)][j])) in NodeSet(JoinDup(N, M, ns))
  {
    var fdl := MinLayer(ns);
    var N0, M0, M', D, t := N[fdl], M[fdl], JoinedCopy(N, M, ns), JoinDup(N, M, ns), JoinTable(N, M, ns);
    assert PairsAt(N0, M0, j) && Key(M0, fdl, ns, j) in t && t[Key(M0, fdl, ns, j)] == Image(N0, fdl, ns, j);
    KeptMembers(M'[fdl], fdl, ns);
    assert Pairable(N0, M0);
    assert M'[fdl][j] == JoinedChain(N0, M0, fdl, ns, j);
    assert M'[fdl][j] in D[0];
    var c' :| 0 <= c' < |D[0]| && D[0][c'] == M'[fdl][j];
    var x := Apply(t, Last(M0[j]));
    if |M0[j]| == 1 {
      assert x == D[0][c'][0];
      PosInNodeSet(D, 0, c', 0);
    } else {
      assert IsPos(M, fdl, j, |M0[j]| - 1);
      assert x == D[0][c'][|M0[j]| - 1];
      PosInNodeSet(D, 0, c', |M0[j]| - 1);
    }
  }

  /**
    * A chain head of the layer right after the join layer reads, through the table, the
    * original's last node of an untouched neuron or a node of an overridden one.
    */
  lemma DupRefsAfterJoin(A: seq<Node>, N: Layers, M: Layers, ns: seq<Neuron>, c: nat, x: Handle)
    requires Joinable(N, M, ns) && Layered(M, A) && TableFacts(N, M, ns)
    requires IsPos(JoinDup(N, M, ns), 1, c, 0) && JoinDup(N, M, ns)[1][c][0] < |A|
    requires x in ConnectedTo(SettledArena(A, N, M, ns)[JoinDup(N, M, ns)[1][c][0]].kind)
    ensures x in DupReach(N, M, ns)
  {
    var fdl := MinLayer(ns);
    var N0, M0, t := N[fdl], M[fdl], JoinTable(N, M, ns);
    var j := AfterJoinSource(A, N, M, ns, c, x);
    if (fdl, j) !in ns {
      assert PairsAt(N0, M0, j) && Key(M0, fdl, ns, j) in t && t[Key(M0, fdl, ns, j)] == Image(N0, fdl, ns, j);
      assert x == N0[j][|N0[j]| - 1];
    } else {
      OverriddenLastKept(N, M, ns, j);
    }
  }

  /** Every node `_join` keeps reads within `DupReach` once the table has settled. */
  lemma DupClosed(A: seq<Node>, N: Layers, M: Layers, ns: seq<Neuron>)
    requires Joinable(N, M, ns) && Layered(N, A) && Layered(M, A) && TableFacts(N, M, ns)
    ensures forall h :: h in NodeSet(JoinDup(N, M, ns)) ==>
              h < |A| && forall x :: x in ConnectedTo(SettledArena(A, N, M, ns)[h].kind) ==> x in DupReach(N, M, ns)
  {
    var D := JoinDup(N, M, ns);
    JoinedCopyInArena(N, M, ns, |A|);
    DupInCopy(N, M, ns);
    forall h | h in NodeSet(D)
      ensures h < |A| && forall x :: x in ConnectedTo(SettledArena(A, N, M, ns)[h].kind) ==> x in DupReach(N, M, ns)
    {
      var l, c, k :| IsPos(D, l, c, k) && D[l][c][k] == h;
      assert IsPos(D, l, c, k);
      forall x | x in ConnectedTo(SettledArena(A, N, M, ns)[h].kind) ensures x in DupReach(N, M, ns) {
        if l == 0 && k == 0 {
          DupRefsHead(A, N, M, ns, c, x);
        } else if l == 0 {
          DupRefsTail(A, N, M, ns, c, k, x);
        } else if l == 1 && k == 0 {
          DupRefsAfterJoin(A, N, M, ns, c, x);
        } else {
          DupRefsInner(A, N, M, ns, l, c, k, x);
        }
      }
    }
  }

  // ---------------------------------------------------------------------------
  // The operations succeed on well-formed networks

  /**
    * The networks the operations are meant for: both feed-forward over the arena, the copy
    * sharing no node with the original and holding each node once, no empty chain, and
    * the join layer before the copy's last layer.
    */
  ghost predicate JoinPremises(A: seq<Node>, N: Layers, M: Layers, ns: seq<Neuron>)
  {
    && Joinable(N, M, ns)
    && Layered(N, A) && Layered(M, A) && Distinct(M) && NodeSet(N) !! NodeSet(M)
    && NonEmptyChains(N) && NonEmptyChains(M)
    && MinLayer(ns) < |M| - 1
  }

  lemma LastsInNodeSet(L: Layers, l: nat)
    requires l < |L|
    ensures Lasts(L[l]) <= NodeSet(L)
  {
    forall h | h in Lasts(L[l]) ensures h in NodeSet(L) {
      var c :| 0 <= c < |L[l]| && |L[l][c]| > 0 && h == L[l][c][|L[l][c]| - 1];
      PosInNodeSet(L, l, c, |L[l][c]| - 1);
    }
  }

  /** The nodes of `P` (a part of the original) and the nodes `_join` keeps are closed under references. */
  lemma SettledClosed(A: seq<Node>, N: Layers, M: Layers, ns: seq<Neuron>, P: Layers)
    requires Joinable(N, M, ns) && Layered(N, A) && Layered(M, A) && Distinct(M) && NodeSet(N) !! NodeSet(M)
    requires SaneIn(P, A) && NodeSet(P) <= NodeSet(N)
    requires DupReach(N, M, ns) <= NodeSet(P) + NodeSet(JoinDup(N, M, ns))
    ensures Closed(NodeSet(P) + NodeSet(JoinDup(N, M, ns)), JoinArena(A, N, M, ns))
  {
    var S, A' := NodeSet(P) + NodeSet(JoinDup(N, M, ns)), JoinArena(A, N, M, ns);
    JoinArenaSettled(A, N, M, ns);
    TableFactsHold(N, M, ns);
    DupClosed(A, N, M, ns);
    LayeredIsSane(N, A);
    forall h | h in S ensures h < |A'| && forall x :: x in ConnectedTo(A'[h].kind) ==> x in S {
      if h in NodeSet(P) {
        OriginalKept(A, N, M, ns, h);
      }
    }
  }

  /** The nodes `join` collects are closed under references in the arena `_join` leaves. */
  lemma JoinClosed(A: seq<Node>, N: Layers, M: Layers, ns: seq<Neuron>)
    requires JoinPremises(A, N, M, ns)
    ensures Closed(NodeSet(N) + NodeSet(JoinDup(N, M, ns)), JoinArena(A, N, M, ns))
  {
    var fdl := MinLayer(ns);
    LastsInNodeSet(N, fdl);
    if fdl > 0 {
      LastsInNodeSet(N, fdl - 1);
    }
    LayeredIsSane(N, A);
    SettledClosed(A, N, M, ns, N);
  }

  /** The inputs and outputs of `join` lie among its nodes. */
  lemma JoinEnds(N: Layers, M: Layers, ns: seq<Neuron>)
    requires Joinable(N, M, ns) && NonEmptyChains(N) && NonEmptyChains(M) && MinLayer(ns) < |M| - 1
    ensures var M', D := JoinedCopy(N, M, ns), JoinDup(N, M, ns); var outs := N[|N| - 1] + M'[|M'| - 1];
      && !HasEmptyChain(N[0]) && !HasEmptyChain(outs)
      && LastsOf(outs) == LastsOf(N[|N| - 1]) + LastsOf(M[|M| - 1])
      && QuerySane(Query(NodeSet(N) + NodeSet(D), Firsts(N[0]), LastsOf(outs), []))
  {
    var M', D := JoinedCopy(N, M, ns), JoinDup(N, M, ns);
    var outs := N[|N| - 1] + M'[|M'| - 1];
    assert M'[|M'| - 1] == M[|M| - 1] == D[|D| - 1];
    assert !HasEmptyChain(outs);
    assert LastsOf(outs) == LastsOf(N[|N| - 1]) + LastsOf(M[|M| - 1]);
    var q := Query(NodeSet(N) + NodeSet(D), Firsts(N[0]), LastsOf(outs), []);
    forall x | x in q.inputs + q.outputs ensures x in q.nodes {
      if x in q.inputs {
        var c :| 0 <= c < |N[0]| && x == N[0][c][0];
        PosInNodeSet(N, 0, c, 0);
      } else if x in LastsOf(N[|N| - 1]) {
        var c :| 0 <= c < |N[|N| - 1]| && x == Last(N[|N| - 1][c]);
        PosInNodeSet(N, |N| - 1, c, |N[|N| - 1][c]| - 1);
      } else {
        var c :| 0 <= c < |D[|D| - 1]| && x == Last(D[|D| - 1][c]);
        PosInNodeSet(D, |D| - 1, c, |D[|D| - 1][c]| - 1);
      }
    }
  }

  /** `join` on well-formed networks passes its checks and returns both networks' outputs. */
  lemma JoinSucceeds(A: seq<Node>, N: Layers, M: Layers, ns: seq<Neuron>)
    requires JoinPremises(A, N, M, ns)
    ensures var r := JoinQuery(N, M, A, ns);
      && r.Ok?
      && r.value.nodes == NodeSet(N) + NodeSet(JoinDup(N, M, ns))
      && r.value.inputs == Firsts(N[0])
      && r.value.outputs == LastsOf(N[|N| - 1]) + LastsOf(M[|M| - 1])
      && r.value.equations == []
  {
    JoinClosed(A, N, M, ns);
    JoinEnds(N, M, ns);
  }

  /** Keeping one output of a feed-forward network leaves a feed-forward network on fewer nodes. */
  lemma KeepOutputLayered(N: Layers, A: seq<Node>, output: nat)
    requires Layered(N, A) && |N| > 0 && output < |N[|N| - 1]|
    ensures NodeSet(KeepOutput(N, output)) <= NodeSet(N)
    ensures Layered(KeepOutput(N, output), A)
  {
    var N2 := KeepOutput(N, output);
    forall l, c, k | IsPos(N2, l, c, k)
      ensures N2[l][c][k] in NodeSet(N)
      ensures forall r :: r in ConnectedTo(A[N2[l][c][k]].kind) ==> r in Allowed(N2, l, c, k)
    {
      KeptPos(N, A, output, l, c, k);
    }
    forall h | h in NodeSet(N2) ensures h in NodeSet(N) {
      var l, c, k :| IsPos(N2, l, c, k) && h == N2[l][c][k];
      KeptPos(N, A, output, l, c, k);
    }
  }

  /** A position of the network with one output kept is one of the network, and reads what it may. */
  lemma KeptPos(N: Layers, A: seq<Node>, output: nat, l: int, c: int, k: int)
    requires Layered(N, A) && |N| > 0 && output < |N[|N| - 1]| && IsPos(KeepOutput(N, output), l, c, k)
    ensures KeepOutput(N, output)[l][c][k] in NodeSet(N) && KeepOutput(N, output)[l][c][k] < |A|
    ensures forall r :: r in ConnectedTo(A[KeepOutput(N, output)[l][c][k]].kind) ==> r in Allowed(KeepOutput(N, output), l, c, k)
  {
    var N2 := KeepOutput(N, output);
    var c0 := if l == |N| - 1 then output else c;
    assert N2[l][c] == N[l][c0];
    assert IsPos(N, l, c0, k);
    if k == 0 && l > 0 {
      assert N2[l - 1] == N[l - 1];
    }
  }

  /** `compareExact`'s nodes are closed under references in the arena `_join` leaves. */
  lemma ExactClosed(A: seq<Node>, N: Layers, M: Layers, ns: seq<Neuron>, output: nat)
    requires JoinPremises(A, N, M, ns) && |M| <= |N| && output < |N[|N| - 1]|
    ensures Closed(NodeSet(KeepOutput(N, output)) + NodeSet(JoinDup(N, M, ns)), JoinArena(A, N, M, ns))
  {
    var fdl, N2 := MinLayer(ns), KeepOutput(N, output);
    KeepOutputLayered(N, A, output);
    LayeredIsSane(N2, A);
    assert N2[fdl] == N[fdl];
    LastsInNodeSet(N2, fdl);
    if fdl > 0 {
      assert N2[fdl - 1] == N[fdl - 1];
      LastsInNodeSet(N2, fdl - 1);
    }
    SettledClosed(A, N, M, ns, N2);
  }

  /** `compareExact`'s inputs, outputs and equation lie among its nodes. */
  lemma ExactEnds(N: Layers, M: Layers, ns: seq<Neuron>, comparator: string, output: nat, eps: real)
    requires Joinable(N, M, ns) && NonEmptyChains(N) && NonEmptyChains(M) && MinLayer(ns) < |M| - 1 && |M| <= |N|
    requires output < |N[|N| - 1]| && output < |M[|M| - 1]|
    ensures var M', D := JoinedCopy(N, M, ns), JoinDup(N, M, ns);
      var N2, M2 := KeepOutput(N, output), KeepOutput(M', output);
      && |N2[|N2| - 1][0]| > 0 && |M2[|M2| - 1][0]| > 0
      && !HasEmptyChain(N2[0]) && N2[0] == N[0]
      && Last(N2[|N2| - 1][0]) == Last(N[|N| - 1][output])
      && Last(M2[|M2| - 1][0]) == Last(M[|M| - 1][output])
      && var netOut, modOut := Last(N[|N| - 1][output]), Last(M[|M| - 1][output]);
      && var c := Sign(comparator);
      && QuerySane(Query(NodeSet(N2) + NodeSet(D), Firsts(N[0]), [netOut, modOut],
                         [Constraint([(c, netOut), (-1.0 * c, modOut)], GE, eps)]))
  {
    var M', D := JoinedCopy(N, M, ns), JoinDup(N, M, ns);
    var N2 := KeepOutput(N, output);
    assert M'[|M'| - 1] == M[|M| - 1] == D[|D| - 1];
    var netOut, modOut := Last(N[|N| - 1][output]), Last(M[|M| - 1][output]);
    var S := NodeSet(N2) + NodeSet(D);
    PosInNodeSet(N2, |N2| - 1, 0, |N2[|N2| - 1][0]| - 1);
    PosInNodeSet(D, |D| - 1, output, |D[|D| - 1][output]| - 1);
    forall x | x in Firsts(N[0]) ensures x in S {
      var c :| 0 <= c < |N[0]| && x == N[0][c][0];
      PosInNodeSet(N2, 0, c, 0);
    }
  }

  /**
    * `compareExact` on well-formed networks whose output exists in both passes its checks:
    * its outputs are that output of each network, under one equation.
    */
  lemma ExactSucceeds(A: seq<Node>, N: Layers, M: Layers, ns: seq<Neuron>, comparator: string, output: nat, eps: real)
    requires JoinPremises(A, N, M, ns) && |M| <= |N|
    requires comparator == "gt" || comparator == "lt"
    requires output < |N[|N| - 1]| && output < |M[|M| - 1]|
    ensures var r := ExactQuery(N, M, A, ns, comparator, output, eps);
      && r.Ok?
      && r.value.inputs == Firsts(N[0])
      && r.value.outputs == [Last(N[|N| - 1][output]), Last(M[|M| - 1][output])]
      && |r.value.equations| == 1
  {
    ExactClosed(A, N, M, ns, output);
    ExactEnds(N, M, ns, comparator, output, eps);
  }

  /** Every node the winner equations mention is an output of the original. */
  lemma {:induction false} WinnerTermsAreOutputs(last: Layer, output: nat, eps: real, n: nat)
    requires !HasEmptyChain(last) && output < |last| && n <= |last|
    ensures forall e, i :: e in WinnerConstraints(last, output, eps, n) && 0 <= i < |e.terms| ==> e.terms[i].1 in LastsOf(last)
  {
    if n > 0 {
      WinnerTermsAreOutputs(last, output, eps, n - 1);
      var r := WinnerConstraints(last, output, eps, n - 1);
      if n - 1 != output {
        var C := Constraint([(1.0, Last(last[output])), (-1.0, Last(last[n - 1]))], LE, -eps);
        assert WinnerConstraints(last, output, eps, n) == r + [C];
        assert LastsOf(last)[output] == Last(last[output]) && LastsOf(last)[n - 1] == Last(last[n - 1]);
      }
    }
  }

  /** `compareMinimum`'s inputs, outputs and equations lie among its nodes. */
  lemma MinimumEnds(N: Layers, M: Layers, ns: seq<Neuron>, output: nat, counter: nat, eps: real)
    requires Joinable(N, M, ns) && NonEmptyChains(N) && NonEmptyChains(M) && MinLayer(ns) < |M| - 1
    requires output < |N[|N| - 1]| && output < |M[|M| - 1]| && counter < |M[|M| - 1]|
    ensures var M', D := JoinedCopy(N, M, ns), JoinDup(N, M, ns);
      var last, mlast := N[|N| - 1], M'[|M'| - 1];
      && mlast == M[|M| - 1] && !HasEmptyChain(last) && !HasEmptyChain(N[0])
      && |mlast[output]| > 0 && |mlast[counter]| > 0
      && var eqs := WinnerConstraints(last, output, eps, |last|) +
                    [Constraint([(1.0, Last(mlast[output])), (-1.0, Last(mlast[counter]))], GE, eps)];
      && QuerySane(Query(NodeSet(N) + NodeSet(D), Firsts(N[0]),
                         LastsOf(last) + [Last(mlast[output]), Last(mlast[counter])], eqs))
  {
    var M', D := JoinedCopy(N, M, ns), JoinDup(N, M, ns);
    var last, mlast := N[|N| - 1], M'[|M'| - 1];
    assert M'[|M'| - 1] == M[|M| - 1] == D[|D| - 1];
    var S := NodeSet(N) + NodeSet(D);
    PosInNodeSet(D, |D| - 1, output, |D[|D| - 1][output]| - 1);
    PosInNodeSet(D, |D| - 1, counter, |D[|D| - 1][counter]| - 1);
    forall x | x in Firsts(N[0]) ensures x in S {
      var c :| 0 <= c < |N[0]| && x == N[0][c][0];
      PosInNodeSet(N, 0, c, 0);
    }
    forall x | x in LastsOf(last) ensures x in S {
      var c :| 0 <= c < |last| && x == Last(last[c]);
      PosInNodeSet(N, |N| - 1, c, |last[c]| - 1);
    }
    WinnerTermsAreOutputs(last, output, eps, |last|);
    var eqs := WinnerConstraints(last, output, eps, |last|) +
               [Constraint([(1.0, Last(mlast[output])), (-1.0, Last(mlast[counter]))], GE, eps)];
    forall e, i | e in eqs && 0 <= i < |e.terms| ensures e.terms[i].1 in S {
      if e in WinnerConstraints(last, output, eps, |last|) {
        assert e.terms[i].1 in LastsOf(last);
      }
    }
  }

  /**
    * `compareMinimum` on well-formed networks, with two different outputs of the copy and
    * an output of the original, passes its checks: one equation per output of the original.
    */
  lemma MinimumSucceeds(A: seq<Node>, N: Layers, M: Layers, ns: seq<Neuron>, output: nat, counter: nat, eps: real)
    requires JoinPremises(A, N, M, ns) && output != counter
    requires output < |N[|N| - 1]| && output < |M[|M| - 1]| && counter < |M[|M| - 1]|
    ensures var r := MinimumQuery(N, M, A, ns, output, counter, eps);
      && r.Ok?
      && r.value.inputs == Firsts(N[0])
      && r.value.outputs == LastsOf(N[|N| - 1]) + [Last(M[|M| - 1][output]), Last(M[|M| - 1][counter])]
      && |r.value.equations| == |N[|N| - 1]|
  {
    var M', D, A' := JoinedCopy(N, M, ns), JoinDup(N, M, ns), JoinArena(A, N, M, ns);
    JoinClosed(A, N, M, ns);
    MinimumEnds(N, M, ns, output, counter, eps);
    var last, mlast := N[|N| - 1], M'[|M'| - 1];
    var eqs := WinnerConstraints(last, output, eps, |last|) +
               [Constraint([(1.0, Last(mlast[output])), (-1.0, Last(mlast[counter]))], GE, eps)];
    var outputs := LastsOf(last) + [Last(mlast[output]), Last(mlast[counter])];
    var S := NodeSet(N) + NodeSet(D);
    assert MinimumQuery(N, M, A, ns, output, counter, eps) == MinimumAfterJoin(N, M', D, A', output, counter, eps);
    assert MinimumAfterJoin(N, M', D, A', output, counter, eps) == Finish(S, N[0], outputs, eqs);
  }
}
