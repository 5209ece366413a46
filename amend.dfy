/**
  * Amending a network (src/redy/features/amend.py): `modify` replaces the activation of
  * chosen neurons, and `join`, `compareExact` and `compareMinimum` merge an original and a
  * modified copy of a network into one query.
  */
module Amend {
  import opened Wrappers
  import opened Nodes
  import opened Equations
  import opened Views

  // ---------------------------------------------------------------------------
  // modify

  /** A neuron override: the neuron at (layer, index) gets the activation named `kind`. */
  datatype Override = Override(layer: nat, neuron: nat, kind: string)

  /** A network together with the arena its nodes live in. */
  datatype State = State(layers: Layers, arena: seq<Node>)

  predicate Wellformed(s: State)
  {
    InArena(s.layers, |s.arena|)
  }

  /** The first nodes of the chains of a layer. */
  function Heads(layer: Layer): set<Handle>
  {
    set c | 0 <= c < |layer| && |layer[c]| > 0 :: layer[c][0]
  }

  /** The substitution of `modify`'s local `translate`: the old last node to the new one. */
  function Retarget(from: Handle, to: Handle): (t: Trans)
    ensures forall h :: Apply(t, h) == if h == from then to else h
    ensures forall h :: h in t ==> t[h] !in t
  {
    if from == to then map[] else map[from := to]
  }

  predicate KnownKind(kind: string)
  {
    kind == "active" || kind == "inactive" || kind == "nofunc"
  }

  /** Where one override stops: an index outside the network, an unknown kind, a chain too short. */
  function StepFault(s: State, o: Override): Option<Fault>
  {
    var L := s.layers;
    if o.layer >= |L| || o.neuron >= |L[o.layer]| then Some(IndexOutOfRange)
    else if !KnownKind(o.kind) then Some(UnknownOverrideKind)
    else if |L[o.layer][o.neuron]| == 0 || (o.kind == "nofunc" && |L[o.layer][o.neuron]| < 2) then Some(IndexOutOfRange)
    else if o.layer + 1 < |L| && HasEmptyChain(L[o.layer + 1]) then Some(IndexOutOfRange)
    else None
  }

  /**
    * Whether `modify` stops on `o` before it has changed anything: every fault except an
    * empty chain in the following layer, which is met only inside the translating loop.
    */
  predicate FaultsEarly(s: State, o: Override)
  {
    var L := s.layers;
    o.layer >= |L| || o.neuron >= |L[o.layer]| || !KnownKind(o.kind)
    || |L[o.layer][o.neuron]| == 0 || (o.kind == "nofunc" && |L[o.layer][o.neuron]| < 2)
  }

  /** The chain that replaces the overridden neuron; a new node, when there is one, is the next handle. */
  function NewChain(s: State, o: Override): Chain
    requires Wellformed(s) && !FaultsEarly(s, o)
  {
    var neuron := s.layers[o.layer][o.neuron];
    if o.kind == "active" then [neuron[0]] else [neuron[0], |s.arena|]
  }

  /** The node added for an "inactive" (fixed to zero) or a "nofunc" (copy of the second node) neuron. */
  function NewNode(s: State, o: Override): Node
    requires Wellformed(s) && !FaultsEarly(s, o) && o.kind != "active"
  {
    var neuron := s.layers[o.layer][o.neuron];
    PosInNodeSet(s.layers, o.layer, o.neuron, 0);
    if o.kind == "inactive" then Node(Plain, Limit(Some(0.0), Some(0.0)), None)
    else
      PosInNodeSet(s.layers, o.layer, o.neuron, 1);
      Node(Plain, s.arena[neuron[1]].limit, s.arena[neuron[1]].name)
  }

  /** `modify`'s local `translate`: the neuron's old last node becomes the new chain's last. */
  function StepTrans(s: State, o: Override): (t: Trans)
    requires Wellformed(s) && !FaultsEarly(s, o)
    ensures forall h :: h in t ==> t[h] !in t
  {
    var neuron := s.layers[o.layer][o.neuron];
    var neuront := NewChain(s, o);
    Retarget(neuron[|neuron| - 1], neuront[|neuront| - 1])
  }

  /** The arena once the replacement chain exists and its last node carries the new name. */
  function StepArena(s: State, o: Override): (r: seq<Node>)
    requires Wellformed(s) && !FaultsEarly(s, o)
    ensures |r| == |s.arena| + (if o.kind == "active" then 0 else 1)
  {
    var A := s.arena;
    var neuron := s.layers[o.layer][o.neuron];
    var last := neuron[|neuron| - 1];
    PosInNodeSet(s.layers, o.layer, o.neuron, |neuron| - 1);
    PosInNodeSet(s.layers, o.layer, o.neuron, 0);
    var A1 := if o.kind == "active" then A else A + [NewNode(s, o)];
    var neuront := NewChain(s, o);
    var tail := neuront[|neuront| - 1];
    if A[last].name.Some? then A1[tail := A1[tail].(name := Some(A[last].name.value + "_" + o.kind))] else A1
  }

  /** One iteration of `modify`'s loop. */
  function ModifyStep(s: State, o: Override): (r: Result<State, Fault>)
    requires Wellformed(s)
    ensures r.Fail? <==> StepFault(s, o).Some?
    ensures r.Fail? ==> r.error == StepFault(s, o).value
    ensures r.Ok? ==> Wellformed(r.value) && |r.value.arena| >= |s.arena|
  {
    match StepFault(s, o)
    case Some(fault) => Fail(fault)
    case None =>
      var L := s.layers;
      var neuront := NewChain(s, o);
      PosInNodeSet(L, o.layer, o.neuron, 0);
      var A2 := StepArena(s, o);
      var L1 := L[o.layer := L[o.layer][o.neuron := neuront]];
      var A3 := if o.layer + 1 < |L| then TranslateAt(A2, Heads(L[o.layer + 1]), StepTrans(s, o)) else A2;
      ReplaceChainInArena(L, o.layer, o.neuron, neuront, |A3|);
      Ok(State(L1, A3))
  }

  /** Replacing one chain by a chain of arena nodes keeps a network inside the arena. */
  lemma ReplaceChainInArena(L: Layers, li: nat, ni: nat, chain: Chain, n: nat)
    requires InArena(L, n) && li < |L| && ni < |L[li]|
    requires forall k :: 0 <= k < |chain| ==> chain[k] < n
    ensures InArena(L[li := L[li][ni := chain]], n)
  {
    var L1 := L[li := L[li][ni := chain]];
    forall h | h in NodeSet(L1) ensures h < n {
      var l, c, k :| IsPos(L1, l, c, k) && L1[l][c][k] == h;
      assert IsPos(L1, l, c, k);
      if l != li || c != ni {
        assert L1[l][c] == L[l][c];
        assert IsPos(L, l, c, k);
        PosInNodeSet(L, l, c, k);
      }
    }
  }

  /** The whole loop of `modify`: the overrides in order, stopping at the first failure. */
  function ModifyAll(s: State, os: seq<Override>): (r: Result<State, Fault>)
    requires Wellformed(s)
    ensures r.Ok? ==> Wellformed(r.value) && |r.value.arena| >= |s.arena|
    decreases |os|
  {
    if os == [] then Ok(s)
    else
      match ModifyStep(s, os[0])
      case Fail(e) => Fail(e)
      case Ok(s') => ModifyAll(s', os[1..])
  }

  lemma HeadsPrefix(layer: Layer, c: nat)
    requires c < |layer| && |layer[c]| > 0
    ensures Heads(layer[..c + 1]) == Heads(layer[..c]) + {layer[c][0]}
  {
    var P, Q := layer[..c + 1], layer[..c];
    forall h | h in Heads(P) ensures h in Heads(Q) + {layer[c][0]} {
      var i :| 0 <= i < |P| && |P[i]| > 0 && P[i][0] == h;
      if i < c { assert Q[i] == P[i]; }
    }
    forall h | h in Heads(Q) ensures h in Heads(P) {
      var i :| 0 <= i < |Q| && |Q[i]| > 0 && Q[i][0] == h;
      assert P[i] == Q[i];
    }
    assert P[c] == layer[c];
  }

  /** The first part of an iteration of `modify`: the replacement chain and its new node. */
  method ReplaceNeuron(g: Graph, ghost s: State, o: Override, neuron: Chain) returns (neuront: Chain)
    requires Wellformed(s) && !FaultsEarly(s, o)
    requires g.nodes == s.arena && neuron == s.layers[o.layer][o.neuron]
    modifies g
    ensures neuront == NewChain(s, o)
    ensures g.nodes == StepArena(s, o)
  {
    ghost var A := g.nodes;
    PosInNodeSet(s.layers, o.layer, o.neuron, 0);
    PosInNodeSet(s.layers, o.layer, o.neuron, |neuron| - 1);
    if o.kind == "active" {
      neuront := [neuron[0]];
    } else if o.kind == "inactive" {
      var n := g.Add(Node(Plain, Unbounded, None));
      var _ := g.UpdateLimit(n, Some(0.0), Some(0.0));
      neuront := [neuron[0], n];
    } else {
      PosInNodeSet(s.layers, o.layer, o.neuron, 1);
      var n := g.Add(Node(Plain, Unbounded, None));
      g.CopyFrom(n, neuron[1]);
      neuront := [neuron[0], n];
    }
    assert o.kind != "active" ==> g.nodes == A + [NewNode(s, o)];
    var last := neuron[|neuron| - 1];
    var tail := neuront[|neuront| - 1];
    if g.nodes[last].name.Some? {
      g.SetName(tail, Some(g.nodes[last].name.value + "_" + o.kind));
    }
  }

  /**
    * The loop at the end of an iteration of `modify`: the first node of every chain of
    * `layer` is translated by `t`; an empty chain stops it with an IndexError.
    */
  method RetargetHeads(g: Graph, layer: Layer, t: Trans) returns (out: Outcome<Fault>)
    requires forall c :: 0 <= c < |layer| && |layer[c]| > 0 ==> layer[c][0] < |g.nodes|
    requires forall h :: h in t ==> t[h] !in t
    modifies g
    ensures out == Pass <==> !HasEmptyChain(layer)
    ensures out != Pass ==> out == Failed(IndexOutOfRange)
    ensures out == Pass ==> g.nodes == TranslateAt(old(g.nodes), Heads(layer), t)
  {
    ghost var A := g.nodes;
    var c := 0;
    while c < |layer|
      invariant 0 <= c <= |layer|
      invariant forall i :: 0 <= i < c ==> |layer[i]| > 0
      invariant g.nodes == TranslateAt(A, Heads(layer[..c]), t)
    {
      if |layer[c]| == 0 {
        return Failed(IndexOutOfRange);
      }
      HeadsPrefix(layer, c);
      var h := layer[c][0];
      if h in Heads(layer[..c]) {
        TranslatedIdempotent(A[h].kind, t);
      }
      g.Translate(h, t);
      c := c + 1;
    }
    assert layer[..c] == layer;
    return Pass;
  }

  /**
    * One iteration of `modify`'s loop, on the network and its arena. The new node is
    * created only once the chain is known to be long enough, which the source does in the
    * other order; a node nobody refers to is not observable there.
    */
  method ModifyNeuron(net: Network, g: Graph, o: Override) returns (out: Outcome<Fault>)
    requires InArena(net.layers, |g.nodes|)
    modifies net, g
    ensures var r := ModifyStep(State(old(net.layers), old(g.nodes)), o);
      && (r.Ok? ==> out == Pass && net.layers == r.value.layers && g.nodes == r.value.arena)
      && (r.Fail? ==> out == Failed(r.error))
    ensures FaultsEarly(State(old(net.layers), old(g.nodes)), o) ==>
      net.layers == old(net.layers) && g.nodes == old(g.nodes)
  {
    var L := net.layers;
    ghost var s := State(L, g.nodes);
    if o.layer >= |L| || o.neuron >= |L[o.layer]| {
      return Failed(IndexOutOfRange);
    }
    var neuron := L[o.layer][o.neuron];
    if !KnownKind(o.kind) {
      return Failed(UnknownOverrideKind);
    }
    if |neuron| == 0 || (o.kind == "nofunc" && |neuron| < 2) {
      return Failed(IndexOutOfRange);
    }
    var neuront := ReplaceNeuron(g, s, o, neuron);
    net.layers := L[o.layer := L[o.layer][o.neuron := neuront]];
    out := Pass;
    if o.layer < |net.layers| - 1 {
      var layer := net.layers[o.layer + 1];
      assert layer == L[o.layer + 1];
      forall c | 0 <= c < |layer| && |layer[c]| > 0 ensures layer[c][0] < |g.nodes| {
        PosInNodeSet(L, o.layer + 1, c, 0);
      }
      out := RetargetHeads(g, layer, Retarget(neuron[|neuron| - 1], neuront[|neuront| - 1]));
    }
  }

  /**
    * `modify`: every override in order, then the sanity assertion. On success the network
    * and the arena are those of `ModifyAll`; the outcome fails exactly when that assertion
    * does.
    */
  method Modify(net: Network, g: Graph, os: seq<Override>) returns (out: Outcome<Fault>)
    requires InArena(net.layers, |g.nodes|)
    modifies net, g
    ensures var r := ModifyAll(State(old(net.layers), old(g.nodes)), os);
      && (r.Fail? ==> out == Failed(r.error))
      && (r.Ok? ==> net.layers == r.value.layers && g.nodes == r.value.arena)
      && (r.Ok? ==> (out == Pass <==> SaneIn(r.value.layers, r.value.arena)))
      && (r.Ok? && out != Pass ==> out == Failed(ReferentialIntegrity))
  {
    ghost var s0 := State(net.layers, g.nodes);
    var i := 0;
    while i < |os|
      invariant 0 <= i <= |os|
      invariant InArena(net.layers, |g.nodes|)
      invariant ModifyAll(s0, os) == ModifyAll(State(net.layers, g.nodes), os[i..])
    {
      assert os[i..][0] == os[i] && os[i..][1..] == os[i + 1..];
      out := ModifyNeuron(net, g, os[i]);
      if out != Pass {
        return;
      }
      i := i + 1;
    }
    if net.Sane(g) {
      out := Pass;
    } else {
      out := Failed(ReferentialIntegrity);
    }
  }

  // ---------------------------------------------------------------------------
  // What one override does to a feed-forward network

  /**
    * The kinds after one override: nodes of the old arena change only if they head a chain
    * of the following layer, where they are retargeted; the added node has no inputs.
    */
  lemma ModifyStepKinds(s: State, o: Override)
    requires Wellformed(s) && StepFault(s, o).None?
    ensures var r := ModifyStep(s, o).value;
      && r.layers == s.layers[o.layer := s.layers[o.layer][o.neuron := NewChain(s, o)]]
      && |r.arena| == |s.arena| + (if o.kind == "active" then 0 else 1)
      && (forall h :: 0 <= h < |s.arena| ==>
            r.arena[h].kind == if o.layer + 1 < |s.layers| && h in Heads(s.layers[o.layer + 1])
                               then Translated(s.arena[h].kind, StepTrans(s, o)) else s.arena[h].kind)
      && (o.kind != "active" ==> r.arena[|s.arena|].kind == Plain)
  {
    var L, A := s.layers, s.arena;
    var A2 := StepArena(s, o);
    forall h | 0 <= h < |A| ensures A2[h].kind == A[h].kind {
      PosInNodeSet(L, o.layer, o.neuron, |L[o.layer][o.neuron]| - 1);
    }
    if o.kind != "active" {
      PosInNodeSet(L, o.layer, o.neuron, |L[o.layer][o.neuron]| - 1);
      assert A2[|A|].kind == Plain;
      if o.layer + 1 < |L| {
        if |A| in Heads(L[o.layer + 1]) {
          var c :| 0 <= c < |L[o.layer + 1]| && |L[o.layer + 1][c]| > 0 && L[o.layer + 1][c][0] == |A|;
          PosInNodeSet(L, o.layer + 1, c, 0);
          assert false;
        }
      }
    }
  }

  /** The network after one override, without its arena. */
  function StepLayers(s: State, o: Override): Layers
    requires Wellformed(s) && !FaultsEarly(s, o)
  {
    s.layers[o.layer := s.layers[o.layer][o.neuron := NewChain(s, o)]]
  }

  /**
    * What `Distinct` gives one override: the neuron's first node stands nowhere else, and
    * the heads of the following layer stand only at the head of a chain of that layer.
    */
  ghost predicate Unshared(s: State, o: Override)
    requires Wellformed(s) && !FaultsEarly(s, o)
  {
    var L := s.layers;
    && (forall l, c, k :: IsPos(L, l, c, k) && L[l][c][k] == L[o.layer][o.neuron][0] ==>
          l == o.layer && c == o.neuron && k == 0)
    && (o.layer + 1 < |L| ==>
          forall l, c, k :: IsPos(L, l, c, k) && L[l][c][k] in Heads(L[o.layer + 1]) ==>
            l == o.layer + 1 && k == 0)
  }

  lemma DistinctUnsharedStep(s: State, o: Override)
    requires Wellformed(s) && !FaultsEarly(s, o) && Distinct(s.layers)
    ensures Unshared(s, o)
  {
    var L := s.layers;
    if o.layer + 1 < |L| {
      forall l, c, k | IsPos(L, l, c, k) && L[l][c][k] in Heads(L[o.layer + 1])
        ensures l == o.layer + 1 && k == 0
      {
        var c' :| 0 <= c' < |L[o.layer + 1]| && |L[o.layer + 1][c']| > 0 && L[o.layer + 1][c'][0] == L[l][c][k];
        assert IsPos(L, o.layer + 1, c', 0);
      }
    }
  }

  /** A last node of the neuron's layer, passed through the retargeting, is a last node after it. */
  lemma RetargetedLast(s: State, o: Override, x: Handle)
    requires Wellformed(s) && !FaultsEarly(s, o)
    requires x in Lasts(s.layers[o.layer])
    ensures Apply(StepTrans(s, o), x) in Lasts(StepLayers(s, o)[o.layer])
  {
    var L, L1 := s.layers, StepLayers(s, o);
    var neuron, neuront := L[o.layer][o.neuron], NewChain(s, o);
    var c :| 0 <= c < |L[o.layer]| && |L[o.layer][c]| > 0 && x == L[o.layer][c][|L[o.layer][c]| - 1];
    assert L1[o.layer][o.neuron] == neuront;
    if x == neuron[|neuron| - 1] {
      assert Apply(StepTrans(s, o), x) == L1[o.layer][o.neuron][|neuront| - 1];
    } else {
      assert c != o.neuron;
      assert L1[o.layer][c] == L[o.layer][c];
    }
  }

  /** One position of the network after an override reads only what `Allowed` permits. */
  lemma ModifyLayeredAt(s: State, o: Override, l: int, c: int, k: int)
    requires Wellformed(s) && StepFault(s, o).None?
    requires Layered(s.layers, s.arena) && Unshared(s, o)
    requires IsPos(StepLayers(s, o), l, c, k)
    ensures var R := ModifyStep(s, o).value.arena; var L1 := StepLayers(s, o);
      L1[l][c][k] < |R| &&
      forall x :: x in ConnectedTo(R[L1[l][c][k]].kind) ==> x in Allowed(L1, l, c, k)
  {
    if l == o.layer && c == o.neuron {
      ModifyLayeredNeuron(s, o, l, c, k);
    } else {
      var L, L1 := s.layers, StepLayers(s, o);
      assert L1[l][c] == L[l][c];
      assert IsPos(L, l, c, k);
      var h := L[l][c][k];
      assert h in NodeSet(L) && forall x :: x in ConnectedTo(s.arena[h].kind) ==> x in Allowed(L, l, c, k);
      if l == o.layer + 1 && k == 0 {
        ModifyLayeredHead(s, o, l, c, k);
      } else {
        ModifyLayeredOther(s, o, l, c, k);
      }
    }
  }

  /** What `Layered` says of a position the override leaves in place. */
  predicate KeptReadsAllowed(s: State, o: Override, l: int, c: int, k: int)
    requires Wellformed(s) && !FaultsEarly(s, o)
  {
    && IsPos(s.layers, l, c, k) && IsPos(StepLayers(s, o), l, c, k)
    && StepLayers(s, o)[l][c] == s.layers[l][c]
    && s.layers[l][c][k] < |s.arena|
    && forall x :: x in ConnectedTo(s.arena[s.layers[l][c][k]].kind) ==> x in Allowed(s.layers, l, c, k)
  }

  /** `ModifyLayeredAt` in the overridden chain. */
  lemma ModifyLayeredNeuron(s: State, o: Override, l: int, c: int, k: int)
    requires Wellformed(s) && StepFault(s, o).None?
    requires Layered(s.layers, s.arena) && Unshared(s, o)
    requires IsPos(StepLayers(s, o), l, c, k)
    requires l == o.layer && c == o.neuron
    ensures var R := ModifyStep(s, o).value.arena; var L1 := StepLayers(s, o);
      L1[l][c][k] < |R| &&
      forall x :: x in ConnectedTo(R[L1[l][c][k]].kind) ==> x in Allowed(L1, l, c, k)
  {
    var L, A, L1 := s.layers, s.arena, StepLayers(s, o);
    var R := ModifyStep(s, o).value.arena;
    ModifyStepKinds(s, o);
    var h := L1[l][c][k];
    var li := o.layer;
    if k == 0 {
      assert h == L[li][o.neuron][0];
      assert IsPos(L, li, o.neuron, 0);
      assert !(li + 1 < |L| && h in Heads(L[li + 1]));
      assert R[h].kind == A[h].kind;
      if li > 0 {
        assert L1[li - 1] == L[li - 1];
      }
      assert Allowed(L1, l, c, k) == Allowed(L, li, o.neuron, 0);
    } else {
      assert h == |A|;
    }
  }

  /** `ModifyLayeredAt` at the head of another chain of the next layer, which is retargeted. */
  lemma ModifyLayeredHead(s: State, o: Override, l: int, c: int, k: int)
    requires Wellformed(s) && StepFault(s, o).None?
    requires KeptReadsAllowed(s, o, l, c, k)
    requires !(l == o.layer && c == o.neuron) && l == o.layer + 1 && k == 0
    ensures var R := ModifyStep(s, o).value.arena; var L1 := StepLayers(s, o);
      L1[l][c][k] < |R| &&
      forall x :: x in ConnectedTo(R[L1[l][c][k]].kind) ==> x in Allowed(L1, l, c, k)
  {
    var L, A, L1 := s.layers, s.arena, StepLayers(s, o);
    var R := ModifyStep(s, o).value.arena;
    ModifyStepKinds(s, o);
    var h := L1[l][c][k];
    var li := o.layer;
    assert h in Heads(L[li + 1]);
    TranslatedShape(A[h].kind, StepTrans(s, o));
    forall x | x in ConnectedTo(R[h].kind) ensures x in Allowed(L1, l, c, k) {
      var i :| 0 <= i < |ConnectedTo(A[h].kind)| && x == Apply(StepTrans(s, o), ConnectedTo(A[h].kind)[i]);
      assert ConnectedTo(A[h].kind)[i] in Allowed(L, l, c, k);
      RetargetedLast(s, o, ConnectedTo(A[h].kind)[i]);
    }
  }

  /** `ModifyLayeredAt` anywhere else, where nothing changes. */
  lemma ModifyLayeredOther(s: State, o: Override, l: int, c: int, k: int)
    requires Wellformed(s) && StepFault(s, o).None?
    requires Unshared(s, o) && KeptReadsAllowed(s, o, l, c, k)
    requires !(l == o.layer && c == o.neuron) && !(l == o.layer + 1 && k == 0)
    ensures var R := ModifyStep(s, o).value.arena; var L1 := StepLayers(s, o);
      L1[l][c][k] < |R| &&
      forall x :: x in ConnectedTo(R[L1[l][c][k]].kind) ==> x in Allowed(L1, l, c, k)
  {
    var L, A, L1 := s.layers, s.arena, StepLayers(s, o);
    var R := ModifyStep(s, o).value.arena;
    ModifyStepKinds(s, o);
    var h := L1[l][c][k];
    var li := o.layer;
    assert !(li + 1 < |L| && h in Heads(L[li + 1]));
    assert R[h].kind == A[h].kind;
    if k > 0 {
      assert Allowed(L1, l, c, k) == Allowed(L, l, c, k);
    } else if l > 0 {
      assert L1[l - 1] == L[l - 1];
      assert Allowed(L1, l, c, k) == Allowed(L, l, c, k);
    }
  }

  /** An override keeps every node at one position: the added node is new to the network. */
  lemma ModifyDistinct(s: State, o: Override)
    requires Wellformed(s) && !FaultsEarly(s, o) && Distinct(s.layers)
    ensures Distinct(StepLayers(s, o))
  {
    var L, L1 := s.layers, StepLayers(s, o);
    var li, ni := o.layer, o.neuron;
    forall l, c, k, l', c', k' | IsPos(L1, l, c, k) && IsPos(L1, l', c', k') && L1[l][c][k] == L1[l'][c'][k']
      ensures l == l' && c == c' && k == k'
    {
      var mine, mine' := l == li && c == ni, l' == li && c' == ni;
      if !mine {
        assert L1[l][c] == L[l][c] && IsPos(L, l, c, k);
        PosInNodeSet(L, l, c, k);
      }
      if !mine' {
        assert L1[l'][c'] == L[l'][c'] && IsPos(L, l', c', k');
        PosInNodeSet(L, l', c', k');
      }
      assert IsPos(L, li, ni, 0);
      PosInNodeSet(L, li, ni, 0);
      assert L1[li][ni] == NewChain(s, o);
    }
  }

  /**
    * One override keeps a feed-forward network feed-forward: the first node keeps its
    * inputs, the added node has none, and the heads of the following layer now read the
    * new last node instead of the old one.
    */
  lemma ModifyLayered(s: State, o: Override)
    requires Wellformed(s) && StepFault(s, o).None?
    requires Layered(s.layers, s.arena) && Distinct(s.layers)
    ensures Layered(ModifyStep(s, o).value.layers, ModifyStep(s, o).value.arena)
    ensures Distinct(ModifyStep(s, o).value.layers)
  {
    var r := ModifyStep(s, o).value;
    ModifyStepKinds(s, o);
    DistinctUnsharedStep(s, o);
    ModifyDistinct(s, o);
    forall l, c, k | IsPos(r.layers, l, c, k)
      ensures r.layers[l][c][k] in NodeSet(r.layers)
      ensures forall x :: x in ConnectedTo(r.arena[r.layers[l][c][k]].kind) ==> x in Allowed(r.layers, l, c, k)
    {
      PosInNodeSet(r.layers, l, c, k);
      ModifyLayeredAt(s, o, l, c, k);
    }
  }

  /**
    * `modify` on a feed-forward network whose nodes each stand at one position: if every
    * override applies, the result is again such a network, so the final sanity assertion
    * holds.
    */
  lemma {:induction false} ModifyAllLayered(s: State, os: seq<Override>)
    requires Wellformed(s) && Layered(s.layers, s.arena) && Distinct(s.layers)
    requires ModifyAll(s, os).Ok?
    ensures Layered(ModifyAll(s, os).value.layers, ModifyAll(s, os).value.arena)
    ensures Distinct(ModifyAll(s, os).value.layers)
    ensures SaneIn(ModifyAll(s, os).value.layers, ModifyAll(s, os).value.arena)
    decreases |os|
  {
    if os != [] {
      ModifyLayered(s, os[0]);
      ModifyAllLayered(ModifyStep(s, os[0]).value, os[1..]);
    } else {
      LayeredIsSane(s.layers, s.arena);
    }
  }

  /**
    * The replaced neuron: it keeps its first node; "active" drops everything after it,
    * "inactive" ends in a new node fixed to zero, "nofunc" in a new node with the bounds and
    * name of its old second node; the new last node takes the old last node's name with the
    * kind appended, when there was one.
    */
  lemma ModifyStepNeuron(s: State, o: Override)
    requires Wellformed(s) && StepFault(s, o).None?
    ensures var r := ModifyStep(s, o).value; var neuron := s.layers[o.layer][o.neuron];
      var chain := r.layers[o.layer][o.neuron]; var tail := chain[|chain| - 1];
      && chain[0] == neuron[0]
      && tail < |r.arena| && (forall k :: 0 <= k < |neuron| ==> neuron[k] < |s.arena|)
      && (o.kind == "active" <==> |chain| == 1)
      && (o.kind != "active" ==> |chain| == 2 && tail == |s.arena| && r.arena[tail].kind == Plain)
      && (o.kind == "inactive" ==> r.arena[tail].limit == Limit(Some(0.0), Some(0.0)))
      && (o.kind == "nofunc" ==> r.arena[tail].limit == s.arena[neuron[1]].limit)
      && (s.arena[neuron[|neuron| - 1]].name.Some? ==>
            r.arena[tail].name == Some(s.arena[neuron[|neuron| - 1]].name.value + "_" + o.kind))
      && (s.arena[neuron[|neuron| - 1]].name.None? && o.kind == "nofunc" ==>
            r.arena[tail].name == s.arena[neuron[1]].name)
  {
    ModifyStepKinds(s, o);
    forall k | 0 <= k < |s.layers[o.layer][o.neuron]| ensures s.layers[o.layer][o.neuron][k] < |s.arena| {
      PosInNodeSet(s.layers, o.layer, o.neuron, k);
    }
  }
}
