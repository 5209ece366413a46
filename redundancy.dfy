/**
  * Redundancy queries (src/redy/features/redundancy.py): a `RedundancyTest` holds a
  * network and a margin; each query duplicates and clips the network once or twice,
  * overrides neurons of one copy and hands both copies to the comparisons of `Compare`,
  * or asks whether one neuron is in a claimed phase.
  */
module Redundancy {
  import opened Wrappers
  import opened Nodes
  import opened Equations
  import opened Views
  import opened Clip
  import opened Amend
  import opened Compare

  /** A neuron claim `(layer, neuron, kind)` as the caller writes it. */
  datatype Target = Target(layer: nat, neuron: nat, kind: string)

  // ---------------------------------------------------------------------------
  // duplicateAndClip

  /**
    * The assertion of `duplicateAndClip`: `0 <= firstLayer < lastLayer < layerCount`. With
    * no last layer the comparison raises TypeError, which fails the same way.
    */
  predicate RangeFits(rng: Range, layerCount: nat)
  {
    rng.lastLayer.Some? && rng.firstLayer < rng.lastLayer.value < layerCount
  }

  /**
    * `duplicateAndClip` on the network `L` over the arena `A`: the duplicate (whose
    * construction asserts its sanity), the range assertion, then `clipNetwork`.
    */
  function DupClip(L: Layers, A: seq<Node>, rng: Range, suffix: string): (r: Result<State, Fault>)
    requires InArena(L, |A|)
    ensures r.Ok? ==> Wellformed(r.value) && |r.value.arena| >= |A|
    ensures r.Ok? ==> RangeFits(rng, |L|) && |r.value.layers| == rng.lastLayer.value - rng.firstLayer + 1
  {
    var D, A1 := MapLayers(L, DupTable(L, |A|)), DuplicateArena(A, L, suffix);
    if !SaneIn(D, A1) then Fail(ReferentialIntegrity)
    else if !RangeFits(rng, |L|) then Fail(BadArgument)
    else if ClipFails(D, rng) then Fail(IndexOutOfRange)
    else
      var C, A2 := ClipLayers(D, rng, |A1|), ClipArena(A1, D, rng);
      ClipArenaLength(A1, D, rng);
      if SaneIn(C, A2) then Ok(State(C, A2)) else Fail(ReferentialIntegrity)
  }

  // ---------------------------------------------------------------------------
  // _prep

  /** `_prep`'s range: a missing last layer becomes the network's last layer. */
  function Resolved(rng: Range, layerCount: nat): (r: Range)
    ensures r.lastLayer.Some?
  {
    // with no layers the source's -1 and this 0 both fail every later check
    if rng.lastLayer.None? then rng.(lastLayer := Some(if layerCount > 0 then layerCount - 1 else 0)) else rng
  }

  /** Line 30 of redundancy.py: every claimed layer is a hidden layer. */
  predicate HiddenLayers(ts: seq<Target>, layerCount: nat)
  {
    forall i :: 0 <= i < |ts| ==> 1 <= ts[i].layer < layerCount - 1
  }

  /** Line 31: every claimed layer lies in the range and every neuron in its layer. */
  predicate WithinRange(ts: seq<Target>, L: Layers, rng: Range)
    requires rng.lastLayer.Some?
  {
    forall i :: 0 <= i < |ts| ==>
      rng.firstLayer <= ts[i].layer <= rng.lastLayer.value && ts[i].layer < |L| && ts[i].neuron < |L[ts[i].layer]|
  }

  /** `{(l - firstLayer, n): f for l, n, f in neurons}` as its items in order. */
  function Rebased(ts: seq<Target>, first: nat): (os: seq<Override>)
    requires forall i :: 0 <= i < |ts| ==> first <= ts[i].layer
    decreases |ts|
  {
    if ts == [] then []
    else
      var n := |ts| - 1;
      Upsert(Rebased(ts[..n], first), Override(ts[n].layer - first, ts[n].neuron, ts[n].kind))
  }

  /** Storing into a dict: an existing key keeps its place and takes the new value, a new key goes last. */
  function Upsert(os: seq<Override>, o: Override): (r: seq<Override>)
    decreases |os|
  {
    if os == [] then [o]
    else if Slot(os[0]) == Slot(o) then [o] + os[1..]
    else [os[0]] + Upsert(os[1..], o)
  }

  /** The dict key of an override. */
  function Slot(o: Override): Neuron
  {
    (o.layer, o.neuron)
  }

  /** The keys of the overrides, the neurons `_join` and the comparisons test. */
  function Slots(os: seq<Override>): (ns: seq<Neuron>)
    ensures |ns| == |os| && forall i :: 0 <= i < |os| ==> ns[i] == Slot(os[i])
  {
    seq(|os|, i requires 0 <= i < |os| => Slot(os[i]))
  }

  /** The original copy, the overridden copy, the arena they share and the overrides. */
  datatype Prepared = Prepared(net: Layers, mod: Layers, arena: seq<Node>, overrides: seq<Override>)

  /**
    * `_prep`: resolve the range, check the claims, duplicate and clip the network twice
    * ("_dup" and "_mod" copies), and apply the rebased overrides to the second copy only,
    * whose `modify` ends with its sanity assertion.
    */
  function Prep(L: Layers, A: seq<Node>, ts: seq<Target>, rng: Range): (r: Result<Prepared, Fault>)
    requires InArena(L, |A|)
    ensures r.Ok? ==> InArena(r.value.net, |r.value.arena|) && InArena(r.value.mod, |r.value.arena|)
  {
    var rng' := Resolved(rng, |L|);
    if !HiddenLayers(ts, |L|) || !WithinRange(ts, L, rng') then Fail(BadArgument)
    else match DupClip(L, A, rng', "_dup")
    case Fail(e) => Fail(e)
    case Ok(s1) =>
      match DupClip(L, s1.arena, rng', "_mod")
      case Fail(e) => Fail(e)
      case Ok(s2) =>
        var os := Rebased(ts, rng'.firstLayer);
        match ModifyAll(s2, os)
        case Fail(e) => Fail(e)
        case Ok(s3) =>
          if SaneIn(s3.layers, s3.arena) then Ok(Prepared(s1.layers, s3.layers, s3.arena, os))
          else Fail(ReferentialIntegrity)
  }

  // ---------------------------------------------------------------------------
  // The comparisons

  /** The assertion of `getComparedMinimum` and `getStateCheck`: the range runs to the end, mode 0. */
  predicate ToTheEnd(rng: Range, layerCount: nat)
  {
    rng.lastMode == 0 && (rng.lastLayer.None? || rng.lastLayer.value + 1 == layerCount)
  }

  /** `getComparedExact`: `_prep`, then `compareExact` on the two copies. */
  function ComparedExact(L: Layers, A: seq<Node>, ts: seq<Target>, rng: Range, comparator: string, output: nat, eps: real)
    : Result<Query, Fault>
    requires InArena(L, |A|)
  {
    match Prep(L, A, ts, rng)
    case Fail(e) => Fail(e)
    case Ok(p) => ExactQuery(p.net, p.mod, p.arena, Slots(p.overrides), comparator, output, eps)
  }

  /** `getComparedMinimum`: its range assertion, `_prep`, then `compareMinimum`. */
  function ComparedMinimum(L: Layers, A: seq<Node>, ts: seq<Target>, rng: Range, output: nat, counter: nat, eps: real)
    : Result<Query, Fault>
    requires InArena(L, |A|)
  {
    if !ToTheEnd(rng, |L|) then Fail(BadArgument)
    else match Prep(L, A, ts, rng)
    case Fail(e) => Fail(e)
    case Ok(p) => MinimumQuery(p.net, p.mod, p.arena, Slots(p.overrides), output, counter, eps)
  }

  /** `getJoined`: `_prep`, then `join`. */
  function Joined(L: Layers, A: seq<Node>, ts: seq<Target>, rng: Range): Result<Query, Fault>
    requires InArena(L, |A|)
  {
    match Prep(L, A, ts, rng)
    case Fail(e) => Fail(e)
    case Ok(p) => JoinQuery(p.net, p.mod, p.arena, Slots(p.overrides))
  }

  // ---------------------------------------------------------------------------
  // getStateCheck

  /**
    * The comparison and right-hand side that ask "the neuron is NOT in the claimed phase":
    * for an "inactive" claim, the pre-activation is positive; for any other claim, it is
    * negative. The strict form has no false positives (x >= -eps, x <= eps), the other
    * no false negatives (x >= eps, x <= -eps).
    */
  function PhaseBound(inactive: bool, strict: bool, eps: real): (Comparator, real)
  {
    if !strict then (if inactive then (GE, eps) else (LE, -eps))
    else (if inactive then (GE, -eps) else (LE, eps))
  }

  /** The value `getStateCheck` builds: the clipped copy with its last layer cut to one chain. */
  datatype StateCheck = StateCheck(layers: Layers, arena: seq<Node>, inputs: seq<Handle>, probe: Handle, equation: Constraint)

  /** The range `getStateCheck` clips with: from the caller's start up to the neuron's layer, mode 0. */
  function ProbeRange(rng: Range, t: Target): Range
  {
    Range(rng.firstLayer, rng.firstMode, Some(t.layer), 0)
  }

  /**
    * `getStateCheck`: clip a duplicate up to the neuron's layer, keep only its chain (which
    * must hold exactly one node, the pre-activation `vb`), and ask with one equation
    * `1 * vb (>= | <=) eps'` that the neuron is not in the claimed phase.
    */
  function StateCheckQuery(L: Layers, A: seq<Node>, t: Target, rng: Range, strict: bool, eps: real)
    : (r: Result<StateCheck, Fault>)
    requires InArena(L, |A|)
  {
    if !ToTheEnd(rng, |L|) then Fail(BadArgument)
    else match DupClip(L, A, ProbeRange(rng, t), "_dup")
    case Fail(e) => Fail(e)
    case Ok(s) => Probe(s, t, strict, eps)
  }

  /** `getStateCheck` from the clipped copy `s` on. */
  function Probe(s: State, t: Target, strict: bool, eps: real): (r: Result<StateCheck, Fault>)
    requires |s.layers| > 0
    ensures r.Ok? ==> r.value.probe in Flatten(r.value.layers)
    ensures r.Ok? ==> forall x :: x in r.value.inputs ==> x in Flatten(r.value.layers)
  {
    var C := s.layers;
    var last := C[|C| - 1];
    if t.neuron >= |last| then Fail(IndexOutOfRange)
    else if |last[t.neuron]| != 1 then Fail(BadArgument)
    else
      var C' := C[|C| - 1 := [last[t.neuron]]];
      var vb := last[t.neuron][0];
      var (cmp, e) := PhaseBound(t.kind == "inactive", strict, eps);
      if HasEmptyChain(C'[0]) then Fail(IndexOutOfRange)
      else
        var inputs := Firsts(C'[0]);
        FlattenMembersAll(C');
        PosInNodeSet(C', |C'| - 1, 0, 0);
        assert forall c :: 0 <= c < |C'[0]| ==> IsPos(C', 0, c, 0);
        // the assertion of the ViewIO constructor holds by construction
        Ok(StateCheck(C', s.arena, inputs, vb, Constraint([(1.0, vb)], cmp, e)))
  }

  // ---------------------------------------------------------------------------
  // RedundancyTest

  /** `RedundancyTest`: the network under test and the margin of its equations. */
  class RedundancyTest {
    const network: Network
    const epsilon: real

    constructor (network: Network, epsilon: real)
      ensures this.network == network && this.epsilon == epsilon
    {
      this.network := network;
      this.epsilon := epsilon;
    }

    /**
      * `duplicateAndClip`: a clipped duplicate. The network under test is not among what
      * the method may modify, so it keeps its layers; its nodes keep their place in the arena.
      */
    method DuplicateAndClip(g: Graph, rng: Range, suffix: string) returns (r: Result<Network, Fault>)
      requires InArena(network.layers, |g.nodes|)
      modifies g
      ensures var s := DupClip(network.layers, old(g.nodes), rng, suffix);
        && (s.Fail? ==> r.Fail? && r.error == s.error)
        && (s.Ok? ==> r.Ok? && fresh(r.value) && r.value.layers == s.value.layers && g.nodes == s.value.arena)
    {
      var net, ok := network.Duplicate(g, suffix);
      if !ok {
        return Fail(ReferentialIntegrity);
      }
      if !RangeFits(rng, net.LayerCount()) {
        return Fail(BadArgument);
      }
      var out := ClipNetwork(net, g, rng);
      if out.Failed? {
        return Fail(out.error);
      }
      return Ok(net);
    }

    /**
      * `_prep`: the two clipped copies, the second overridden, and the rebased overrides.
      * The network under test keeps its layers.
      */
    method PrepNetworks(g: Graph, ts: seq<Target>, rng: Range) returns (r: Result<(Network, Network, seq<Override>), Fault>)
      requires InArena(network.layers, |g.nodes|)
      modifies g
      ensures var p := Prep(network.layers, old(g.nodes), ts, rng);
        && (p.Fail? ==> r.Fail? && r.error == p.error)
        && (p.Ok? ==> r.Ok? && fresh(r.value.0) && fresh(r.value.1) && r.value.0 != r.value.1
                      && r.value.0.layers == p.value.net && r.value.1.layers == p.value.mod
                      && r.value.2 == p.value.overrides && g.nodes == p.value.arena)
    {
      var L := network.layers;
      var rng' := Resolved(rng, network.LayerCount());
      if !HiddenLayers(ts, |L|) || !WithinRange(ts, L, rng') {
        return Fail(BadArgument);
      }
      var net := DuplicateAndClip(g, rng', "_dup");
      if net.Fail? {
        return Fail(net.error);
      }
      var mod := DuplicateAndClip(g, rng', "_mod");
      if mod.Fail? {
        return Fail(mod.error);
      }
      var os := Rebased(ts, rng'.firstLayer);
      var out := Modify(mod.value, g, os);
      if out.Failed? {
        return Fail(out.error);
      }
      return Ok((net.value, mod.value, os));
    }

    /** `getComparedExact`. */
    method GetComparedExact(g: Graph, ts: seq<Target>, comparator: string, output: nat, rng: Range)
      returns (r: Result<ViewIO, Fault>)
      requires InArena(network.layers, |g.nodes|)
      modifies g
      ensures var q := ComparedExact(network.layers, old(g.nodes), ts, rng, comparator, output, epsilon);
        && (q.Fail? ==> r.Fail? && r.error == q.error)
        && (q.Ok? ==> r.Ok? && Realizes(r.value, q.value))
    {
      var p := PrepNetworks(g, ts, rng);
      if p.Fail? {
        return Fail(p.error);
      }
      var (net, mod, os) := p.value;
      r := CompareExact(net, mod, g, Slots(os), comparator, output, epsilon);
    }

    /** `getComparedMinimum`. */
    method GetComparedMinimum(g: Graph, ts: seq<Target>, output: nat, counter: nat, rng: Range)
      returns (r: Result<ViewIO, Fault>)
      requires InArena(network.layers, |g.nodes|)
      modifies g
      ensures var q := ComparedMinimum(network.layers, old(g.nodes), ts, rng, output, counter, epsilon);
        && (q.Fail? ==> r.Fail? && r.error == q.error)
        && (q.Ok? ==> r.Ok? && Realizes(r.value, q.value))
    {
      if !ToTheEnd(rng, network.LayerCount()) {
        return Fail(BadArgument);
      }
      var p := PrepNetworks(g, ts, rng);
      if p.Fail? {
        return Fail(p.error);
      }
      var (net, mod, os) := p.value;
      r := CompareMinimum(net, mod, g, Slots(os), output, counter, epsilon);
    }

    /** `getJoined`. */
    method GetJoined(g: Graph, ts: seq<Target>, rng: Range) returns (r: Result<ViewIO, Fault>)
      requires InArena(network.layers, |g.nodes|)
      modifies g
      ensures var q := Joined(network.layers, old(g.nodes), ts, rng);
        && (q.Fail? ==> r.Fail? && r.error == q.error)
        && (q.Ok? ==> r.Ok? && Realizes(r.value, q.value))
    {
      var p := PrepNetworks(g, ts, rng);
      if p.Fail? {
        return Fail(p.error);
      }
      var (net, mod, os) := p.value;
      r := Join(net, mod, g, Slots(os));
    }

    /**
      * `getStateCheck`: the view asking that neuron `t` is not in its claimed phase, and
      * the clipped network it is built on.
      */
    method GetStateCheck(g: Graph, t: Target, rng: Range, strict: bool) returns (r: Result<(ViewIO, Network), Fault>)
      requires InArena(network.layers, |g.nodes|)
      modifies g
      ensures var q := StateCheckQuery(network.layers, old(g.nodes), t, rng, strict, epsilon);
        && (q.Fail? ==> r.Fail? && r.error == q.error)
        && (q.Ok? ==> r.Ok? && fresh(r.value.1) && g.nodes == q.value.arena && Shows(r.value.0, r.value.1, q.value))
    {
      ghost var L, A := network.layers, g.nodes;
      if !ToTheEnd(rng, network.LayerCount()) {
        return Fail(BadArgument);
      }
      var c := DuplicateAndClip(g, ProbeRange(rng, t), "_dup");
      if c.Fail? {
        return Fail(c.error);
      }
      ghost var s := State(c.value.layers, g.nodes);
      assert DupClip(L, A, ProbeRange(rng, t), "_dup") == Ok(s);
      assert StateCheckQuery(L, A, t, rng, strict, epsilon) == Probe(s, t, strict, epsilon);
      r := ProbeView(c.value, s, t, strict, epsilon);
    }
  }

  /** The view and the network `getStateCheck` returns carry the state check `q`. */
  ghost predicate Shows(v: ViewIO, clipped: Network, q: StateCheck)
    reads clipped, v.equations
  {
    && clipped.layers == q.layers
    && v.nodes == Flatten(q.layers) && v.inputs == q.inputs && v.outputs == [q.probe]
    && |v.equations| == 1
    && v.equations[0].terms == q.equation.terms
    && v.equations[0].comparator == q.equation.comparator
    && v.equations[0].scalar == q.equation.scalar
  }

  /** `getStateCheck` on the clipped copy: cuts its last layer to the neuron and builds the view. */
  method ProbeView(clipped: Network, ghost s: State, t: Target, strict: bool, eps: real) returns (r: Result<(ViewIO, Network), Fault>)
    requires clipped.layers == s.layers && |s.layers| > 0
    modifies clipped
    ensures var q := Probe(s, t, strict, eps);
      && (q.Fail? ==> r.Fail? && r.error == q.error)
      && (q.Ok? ==> r.Ok? && r.value.1 == clipped && fresh(r.value.0.equations) && Shows(r.value.0, r.value.1, q.value))
  {
    var C := clipped.layers;
    var last := C[|C| - 1];
    clipped.layers := C[|C| - 1 := if t.neuron < |last| then [last[t.neuron]] else []];
    if t.neuron >= |last| {
      return Fail(IndexOutOfRange);
    }
    if |last[t.neuron]| != 1 {
      return Fail(BadArgument);
    }
    var vb := last[t.neuron][0];
    var (cmp, e) := PhaseBound(t.kind == "inactive", strict, eps);
    var eq := new Equation([(1.0, vb)], cmp, e);
    if HasEmptyChain(clipped.layers[0]) {
      return Fail(IndexOutOfRange);
    }
    var view := ViewIO(clipped.Nodes(), Firsts(clipped.layers[0]), [vb], [eq]);
    return Ok((view, clipped));
  }
}
