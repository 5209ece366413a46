/**
  * What the redundancy queries of src/redy/features/redundancy.py promise: when
  * `duplicateAndClip` succeeds and what it leaves alone, what the rebased override list
  * is as a dict, what the phase equation of `getStateCheck` means, and when
  * `getStateCheck` succeeds.
  */
module RedundancyFacts {
  import opened Wrappers
  import opened Nodes
  import opened Equations
  import opened Views
  import opened Clip
  import opened Amend
  import opened Compare
  import opened Redundancy

  // ---------------------------------------------------------------------------
  // duplicateAndClip

  /** Two networks of the same shape. */
  predicate SameShape(L: Layers, M: Layers)
  {
    && |L| == |M|
    && (forall l :: 0 <= l < |L| ==> |L[l]| == |M[l]|)
    && (forall l, c :: 0 <= l < |L| && 0 <= c < |L[l]| ==> |L[l][c]| == |M[l][c]|)
  }

  /** Whether clipping fails depends on the shape of the network alone. */
  lemma ClipFailsShape(L: Layers, M: Layers, rng: Range)
    requires SameShape(L, M)
    ensures ClipFails(L, rng) == ClipFails(M, rng)
  {
    var W, V := Window(L, rng), Window(M, rng);
    assert |W| == |V|;
    if |W| > 0 {
      assert |W[0]| == |V[0]|;
      forall c | 0 <= c < |W[0]| ensures |W[0][c]| == |V[0][c]| {
        assert W[0] == L[rng.firstLayer] && V[0] == M[rng.firstLayer];
      }
    }
  }

  /**
    * On a feed-forward network without repeated nodes, `duplicateAndClip` fails exactly
    * when the range assertion fails (BadArgument) or the window cannot be cut, and what it
    * returns is feed-forward again.
    */
  lemma DupClipOutcome(L: Layers, A: seq<Node>, rng: Range, suffix: string)
    requires Layered(L, A) && Distinct(L)
    ensures var r := DupClip(L, A, rng, suffix);
            && (r.Ok? <==> RangeFits(rng, |L|) && !ClipFails(L, rng))
            && (!RangeFits(rng, |L|) ==> r == Fail(BadArgument))
            && (r.Ok? ==> Layered(r.value.layers, r.value.arena))
  {
    var t := DupTable(L, |A|);
    var D, A1 := MapLayers(L, t), DuplicateArena(A, L, suffix);
    DuplicateLayered(A, L, suffix);
    LayeredIsSane(D, A1);
    DuplicateDistinct(A, L);
    DuplicateShape(A, L);
    ClipFailsShape(L, D, rng);
    if RangeFits(rng, |L|) && !ClipFails(D, rng) {
      ClipLayered(A1, D, rng);
    }
  }

  /**
    * `duplicateAndClip` leaves the network under test alone: every node that existed
    * before the call is unchanged afterwards.
    */
  lemma DupClipKeepsArena(L: Layers, A: seq<Node>, rng: Range, suffix: string)
    requires InArena(L, |A|)
    ensures var r := DupClip(L, A, rng, suffix);
            r.Ok? ==> r.value.arena[..|A|] == A
  {
    var r := DupClip(L, A, rng, suffix);
    if r.Ok? {
      var t := DupTable(L, |A|);
      var D, A1 := MapLayers(L, t), DuplicateArena(A, L, suffix);
      DuplicateShape(A, L);
      assert A1[..|A|] == A;
      var A2 := ClipArena(A1, D, rng);
      assert r.value.arena == A2;
      forall h | 0 <= h < |A| ensures A2[h] == A[h] {
        if h in NodeSet(D) {
          assert false;
        }
        ClipArenaAt(A1, D, rng, h);
      }
    }
  }

  // ---------------------------------------------------------------------------
  // The rebased overrides as a dict

  /** No two overrides share a key, as in a dict. */
  predicate UniqueSlots(os: seq<Override>)
  {
    forall i, j :: 0 <= i < j < |os| ==> Slot(os[i]) != Slot(os[j])
  }

  /** The dict the list stands for. */
  function AsDict(os: seq<Override>): map<Neuron, string>
  {
    if os == [] then map[] else AsDict(os[1..])[Slot(os[0]) := os[0].kind]
  }

  /** `{(l - first, n): f for l, n, f in ts}` as Python evaluates it: a later entry overwrites. */
  function Comprehension(ts: seq<Target>, first: nat): map<Neuron, string>
    requires forall i :: 0 <= i < |ts| ==> first <= ts[i].layer
  {
    if ts == [] then map[]
    else
      var n := |ts| - 1;
      Comprehension(ts[..n], first)[(ts[n].layer - first, ts[n].neuron) := ts[n].kind]
  }

  /** Storing one entry keeps the keys unique and updates the dict at that key only. */
  lemma {:induction false} UpsertDict(os: seq<Override>, o: Override)
    requires UniqueSlots(os)
    ensures UniqueSlots(Upsert(os, o))
    ensures AsDict(Upsert(os, o)) == AsDict(os)[Slot(o) := o.kind]
    ensures forall x :: x in Upsert(os, o) ==> x == o || x in os
    decreases |os|
  {
    if os == [] {
    } else if Slot(os[0]) == Slot(o) {
      var r := [o] + os[1..];
      assert r[1..] == os[1..];
      forall i, j | 0 <= i < j < |r| ensures Slot(r[i]) != Slot(r[j]) {
        assert r[j] == os[j];
        if i > 0 {
          assert r[i] == os[i];
        }
      }
    } else {
      var u := Upsert(os[1..], o);
      UpsertDict(os[1..], o);
      var r := [os[0]] + u;
      assert r[1..] == u;
      forall i, j | 0 <= i < j < |r| ensures Slot(r[i]) != Slot(r[j]) {
        if i == 0 {
          assert r[j] in u;
          if r[j] != o {
            var j' :| 0 <= j' < |os[1..]| && os[1..][j'] == r[j];
            assert os[j' + 1] == r[j];
          }
        }
      }
      assert AsDict(r) == AsDict(u)[Slot(os[0]) := os[0].kind];
    }
  }

  /**
    * Line 35 of redundancy.py: the rebased overrides have unique keys and are the dict the
    * comprehension builds, where the last claim on a neuron wins.
    */
  lemma {:induction false} RebasedDict(ts: seq<Target>, first: nat)
    requires forall i :: 0 <= i < |ts| ==> first <= ts[i].layer
    ensures UniqueSlots(Rebased(ts, first))
    ensures AsDict(Rebased(ts, first)) == Comprehension(ts, first)
    decreases |ts|
  {
    if ts != [] {
      var n := |ts| - 1;
      var o := Override(ts[n].layer - first, ts[n].neuron, ts[n].kind);
      assert forall i :: 0 <= i < |ts[..n]| ==> first <= ts[..n][i].layer by {
        forall i | 0 <= i < |ts[..n]| ensures first <= ts[..n][i].layer {
          assert ts[..n][i] == ts[i];
        }
      }
      RebasedDict(ts[..n], first);
      assert Rebased(ts, first) == Upsert(Rebased(ts[..n], first), o);
      assert Comprehension(ts, first) == Comprehension(ts[..n], first)[Slot(o) := o.kind];
      UpsertDict(Rebased(ts[..n], first), o);
    }
  }

  // ---------------------------------------------------------------------------
  // The phase equation of getStateCheck

  /** The phase equation `1 * vb (cmp) scalar` under the assignment `x`. */
  predicate PhaseHolds(b: (Comparator, real), vb: Handle, x: Handle -> real)
  {
    Holds([(1.0, vb)], b.0, b.1, x)
  }

  /** The claim the caller makes: inactive means the pre-activation is at most 0, any other claim at least 0. */
  predicate InPhase(inactive: bool, v: real)
  {
    if inactive then v <= 0.0 else v >= 0.0
  }

  /**
    * A solution of the non-strict query refutes the claim, so when it reports the neuron
    * not redundant, it is not (no false negatives; a positive is "redundant", no solution).
    */
  lemma NonStrictRefutes(inactive: bool, eps: real, vb: Handle, x: Handle -> real)
    requires eps > 0.0
    ensures PhaseHolds(PhaseBound(inactive, false, eps), vb, x) ==> !InPhase(inactive, x(vb))
  {
    assert Lhs([(1.0, vb)], x) == x(vb) by {
      assert [(1.0, vb)][1..] == [];
    }
  }

  /**
    * Every assignment that refutes the claim solves the strict query, so when it has no
    * solution the claim holds and the neuron is redundant (no false positives).
    */
  lemma StrictCatches(inactive: bool, eps: real, vb: Handle, x: Handle -> real)
    requires eps >= 0.0
    ensures !InPhase(inactive, x(vb)) ==> PhaseHolds(PhaseBound(inactive, true, eps), vb, x)
  {
    assert Lhs([(1.0, vb)], x) == x(vb) by {
      assert [(1.0, vb)][1..] == [];
    }
  }

  /** The strict query is the weaker one: each solution of the non-strict query solves it. */
  lemma StrictWeakens(inactive: bool, eps: real, vb: Handle, x: Handle -> real)
    requires eps >= 0.0
    ensures PhaseHolds(PhaseBound(inactive, false, eps), vb, x) ==> PhaseHolds(PhaseBound(inactive, true, eps), vb, x)
  {
    assert Lhs([(1.0, vb)], x) == x(vb) by {
      assert [(1.0, vb)][1..] == [];
    }
  }

  // ---------------------------------------------------------------------------
  // getStateCheck

  /**
    * A state-check query with `n` layers ending in the probe alone, `k` inputs, and the
    * phase equation on the probe as its one equation.
    */
  predicate ProbeQuery(q: Result<StateCheck, Fault>, n: nat, k: nat, t: Target, strict: bool, eps: real)
  {
    && q.Ok?
    && |q.value.layers| == n > 0
    && q.value.layers[|q.value.layers| - 1] == [[q.value.probe]]
    && |q.value.inputs| == k
    && q.value.equation == Constraint([(1.0, q.value.probe)],
             PhaseBound(t.kind == "inactive", strict, eps).0, PhaseBound(t.kind == "inactive", strict, eps).1)
  }

  /** The part of `getStateCheck` after the clip succeeds on a copy whose probe chain holds one node. */
  lemma ProbeSucceeds(s: State, t: Target, strict: bool, eps: real)
    requires |s.layers| >= 2 && !HasEmptyChain(s.layers[0])
    requires t.neuron < |s.layers[|s.layers| - 1]| && |s.layers[|s.layers| - 1][t.neuron]| == 1
    ensures ProbeQuery(Probe(s, t, strict, eps), |s.layers|, |s.layers[0]|, t, strict, eps)
  {
    var C := s.layers;
    var C' := C[|C| - 1 := [C[|C| - 1][t.neuron]]];
    assert C'[0] == C[0];
    var ch := C[|C| - 1][t.neuron];
    assert ch == [ch[0]];
  }

  /** Clipped layers `C`: `n` layers, `k` chains in the first and none empty, a one-node chain `c` in the last. */
  predicate ClippedShape(C: Layers, n: nat, k: nat, c: nat)
  {
    && |C| == n > 0
    && !HasEmptyChain(C[0])
    && |C[0]| == k
    && c < |C[|C| - 1]|
    && |C[|C| - 1][c]| == 1
  }

  /** The shape `getStateCheck` needs of the clipped copy: a chain per input, a one-node probe chain. */
  predicate ProbeShape(L: Layers, rng: Range, t: Target, r: Result<State, Fault>)
    requires rng.firstLayer < |L|
  {
    r.Ok? && rng.firstLayer <= t.layer && ClippedShape(r.value.layers, t.layer - rng.firstLayer + 1, |L[rng.firstLayer]|, t.neuron)
  }

  /** The copy `getStateCheck` clips: at least two layers, inputs everywhere, a one-node probe chain. */
  lemma ProbeClipShape(L: Layers, A: seq<Node>, t: Target, rng: Range)
    requires Layered(L, A) && Distinct(L)
    requires rng.firstLayer < t.layer < |L| && !ClipFails(L, ProbeRange(rng, t))
    requires t.neuron < |L[t.layer]| && |L[t.layer][t.neuron]| > 0
    ensures ProbeShape(L, rng, t, DupClip(L, A, ProbeRange(rng, t), "_dup"))
  {
    DupClipOutcome(L, A, ProbeRange(rng, t), "_dup");
    ProbeClipShapeOk(L, A, t, rng);
  }

  /** `ProbeClipShape` once the clip is known to succeed. */
  lemma ProbeClipShapeOk(L: Layers, A: seq<Node>, t: Target, rng: Range)
    requires InArena(L, |A|)
    requires rng.firstLayer < t.layer < |L| && !ClipFails(L, ProbeRange(rng, t))
    requires t.neuron < |L[t.layer]| && |L[t.layer][t.neuron]| > 0
    requires DupClip(L, A, ProbeRange(rng, t), "_dup").Ok?
    ensures ProbeShape(L, rng, t, DupClip(L, A, ProbeRange(rng, t), "_dup"))
  {
    var prng := ProbeRange(rng, t);
    var D, A1 := MapLayers(L, DupTable(L, |A|)), DuplicateArena(A, L, "_dup");
    DuplicateShape(A, L);
    ClipFailsShape(L, D, prng);
    assert DupClip(L, A, prng, "_dup").value.layers == ClipLayers(D, prng, |A1|);
    assert |D[rng.firstLayer]| == |L[rng.firstLayer]|;
    assert t.neuron < |D[t.layer]| && |D[t.layer][t.neuron]| > 0;
    ProbeLayers(D, prng, |A1|, t.neuron);
  }

  /** Clipping from a first layer to a later one with last mode 0: inputs everywhere, one-node last chains. */
  lemma ProbeLayers(D: Layers, prng: Range, base: nat, n: nat)
    requires !ClipFails(D, prng) && prng.lastMode == 0 && prng.lastLayer.Some?
    requires prng.firstLayer < prng.lastLayer.value < |D|
    requires n < |D[prng.lastLayer.value]| && |D[prng.lastLayer.value][n]| > 0
    ensures ClippedShape(ClipLayers(D, prng, base), prng.lastLayer.value - prng.firstLayer + 1, |D[prng.firstLayer]|, n)
  {
    var C := ClipLayers(D, prng, base);
    var W := Window(D, prng);
    var m := |C| - 1;
    assert C[m] == seq(|W[m]|, c requires 0 <= c < |W[m]| => Take(W[m][c], 1));
    assert W[m] == D[prng.lastLayer.value] && W[0] == D[prng.firstLayer];
    forall c | 0 <= c < |C[0]| ensures |C[0][c]| > 0 {
      ClipFirstLast(D, prng, base, c);
    }
  }

  /**
    * On a feed-forward network without repeated nodes, `getStateCheck` of a neuron past the
    * range's first layer succeeds: the clipped copy ends in one chain of one node, the probe,
    * the inputs are one per chain of the first kept layer, and the one equation is the phase
    * equation on the probe.
    */
  lemma StateCheckSucceeds(L: Layers, A: seq<Node>, t: Target, rng: Range, strict: bool, eps: real)
    requires Layered(L, A) && Distinct(L) && ToTheEnd(rng, |L|)
    requires rng.firstLayer < t.layer < |L| && !ClipFails(L, ProbeRange(rng, t))
    requires t.neuron < |L[t.layer]| && |L[t.layer][t.neuron]| > 0
    ensures ProbeQuery(StateCheckQuery(L, A, t, rng, strict, eps), t.layer - rng.firstLayer + 1, |L[rng.firstLayer]|, t, strict, eps)
  {
    ProbeClipShape(L, A, t, rng);
    ProbeOfShape(L, rng, t, DupClip(L, A, ProbeRange(rng, t), "_dup"), strict, eps);
    StateCheckIsProbe(L, A, t, rng, strict, eps);
  }

  /** The step of `StateCheckSucceeds` from the shape of the clipped copy to the query. */
  lemma ProbeOfShape(L: Layers, rng: Range, t: Target, r: Result<State, Fault>, strict: bool, eps: real)
    requires rng.firstLayer < t.layer < |L| && ProbeShape(L, rng, t, r)
    ensures ProbeQuery(Probe(r.value, t, strict, eps), t.layer - rng.firstLayer + 1, |L[rng.firstLayer]|, t, strict, eps)
  {
    ProbeSucceeds(r.value, t, strict, eps);
  }

  /** Past the range check and the clip, `getStateCheck` is `Probe` of the clipped copy. */
  lemma StateCheckIsProbe(L: Layers, A: seq<Node>, t: Target, rng: Range, strict: bool, eps: real)
    requires InArena(L, |A|) && ToTheEnd(rng, |L|) && DupClip(L, A, ProbeRange(rng, t), "_dup").Ok?
    ensures StateCheckQuery(L, A, t, rng, strict, eps) == Probe(DupClip(L, A, ProbeRange(rng, t), "_dup").value, t, strict, eps)
  {
  }
}
