/**
  * Clipping the start and the end of a layered network (src/redy/features/clip.py): the
  * layers before `firstLayer` and after `lastLayer` are dropped, the nodes of the first
  * layer's chains before `firstMode` are dropped, the node at `firstMode` is replaced by a
  * fresh plain copy (the new input), and the last layer's chains keep `lastMode + 1` nodes.
  */
module Clip {
  import opened Wrappers
  import opened Nodes
  import opened Views

  /** `Range`, with the source's defaults (0, 0, None, 0) in `DefaultRange`. */
  datatype Range = Range(firstLayer: nat, firstMode: nat, lastLayer: Option<nat>, lastMode: nat)

  function DefaultRange(): Range
  {
    Range(0, 0, None, 0)
  }

  /** The last layer kept: the one given, or the network's last one when none is given. */
  function LastLayer(L: Layers, rng: Range): int
  {
    if rng.lastLayer.None? then |L| - 1 else rng.lastLayer.value
  }

  /** `net.layers[firstLayer:lastLayer+1]`, clamped as a slice is. */
  function Window(L: Layers, rng: Range): (W: Layers)
    ensures |W| > 0 ==> rng.firstLayer + |W| <= |L|
    ensures forall l :: 0 <= l < |W| ==> W[l] == L[rng.firstLayer + l]
    ensures |W| > 0 <==> rng.firstLayer < |L| && rng.firstLayer <= LastLayer(L, rng)
    ensures |W| > 0 ==> rng.firstLayer + |W| - 1 == if LastLayer(L, rng) < |L| then LastLayer(L, rng) else |L| - 1
  {
    var hi := LastLayer(L, rng) + 1;
    var hi' := if hi <= |L| then hi else |L|;
    if rng.firstLayer < hi' then L[rng.firstLayer..hi'] else []
  }

  /** `n[k:]`. */
  function Drop(ch: Chain, k: nat): (r: Chain)
    ensures |r| == if k <= |ch| then |ch| - k else 0
    ensures forall i :: 0 <= i < |r| ==> r[i] == ch[k + i]
  {
    if k <= |ch| then ch[k..] else []
  }

  /** `n[:k]`. */
  function Take(ch: Chain, k: nat): (r: Chain)
    ensures |r| == if k <= |ch| then k else |ch|
    ensures forall i :: 0 <= i < |r| ==> r[i] == ch[i]
  {
    if k <= |ch| then ch[..k] else ch
  }

  /**
    * Where `clipNetwork` stops with an IndexError before changing anything: the window is
    * empty, or a chain of its first layer has no node at `firstMode`.
    */
  predicate ClipFails(L: Layers, rng: Range)
  {
    var W := Window(L, rng);
    |W| == 0 || exists c :: 0 <= c < |W[0]| && |W[0][c]| <= rng.firstMode
  }

  /** `bdrs`: the node at `firstMode` of each chain of the first kept layer. */
  function Boundaries(L: Layers, rng: Range): (bs: seq<Handle>)
    requires !ClipFails(L, rng)
    ensures |bs| == |Window(L, rng)[0]|
    ensures forall c :: 0 <= c < |bs| ==> bs[c] == Window(L, rng)[0][c][rng.firstMode]
  {
    var W := Window(L, rng);
    seq(|W[0]|, c requires 0 <= c < |W[0]| => W[0][c][rng.firstMode])
  }

  /** `inputs`: a boundary node to the fresh plain node that stands for it. */
  function InputTable(L: Layers, rng: Range, base: nat): Trans
    requires !ClipFails(L, rng)
  {
    FreshTable(Boundaries(L, rng), base)
  }

  /** The first kept layer's chain `c` after line 26 and, for a one-layer window, line 27. */
  function FirstChainTail(L: Layers, rng: Range, c: nat): Chain
    requires !ClipFails(L, rng) && c < |Window(L, rng)[0]|
  {
    var W := Window(L, rng);
    var tail := Drop(W[0][c], rng.firstMode + 1);
    if |W| == 1 then Take(tail, rng.lastMode + 1) else tail
  }

  /** The layers of the clipped network. */
  function ClipLayers(L: Layers, rng: Range, base: nat): (C: Layers)
    requires !ClipFails(L, rng)
    ensures |C| == |Window(L, rng)|
    ensures forall l :: 0 <= l < |C| ==> |C[l]| == |Window(L, rng)[l]|
  {
    var W := Window(L, rng);
    var t := InputTable(L, rng, base);
    var bs := Boundaries(L, rng);
    seq(|W|, l requires 0 <= l < |W| =>
      if l == 0 then
        seq(|W[0]|, c requires 0 <= c < |W[0]| => [t[bs[c]]] + FirstChainTail(L, rng, c))
      else if l == |W| - 1 then
        seq(|W[l]|, c requires 0 <= c < |W[l]| => Take(W[l][c], rng.lastMode + 1))
      else W[l])
  }

  /** The fresh node made for the boundary at index j, after lines 22-25 and 29. */
  function InputNode(A: seq<Node>, bs: seq<Handle>, t: Trans, j: nat): Node
    requires j < |bs| && bs[j] < |A| && bs[j] in t
  {
    if t[bs[j]] == |A| + j then Node(Plain, A[bs[j]].limit, A[bs[j]].name)
    else Node(Plain, Unbounded, None)
  }

  /**
    * The arena after `clipNetwork`: one fresh plain node per boundary (those the table keeps
    * carry the boundary's limit and name), and every node of the unclipped network
    * translated through the table.
    */
  function ClipArena(A: seq<Node>, L: Layers, rng: Range): (r: seq<Node>)
    requires !ClipFails(L, rng) && InArena(L, |A|)
  {
    var bs := Boundaries(L, rng);
    var t := InputTable(L, rng, |A|);
    BoundariesInArena(L, A, rng);
    TranslateAt(A + InputNodes(A, bs, t), NodeSet(L), t)
  }

  /** The fresh plain nodes, one per boundary, in the order they are made. */
  function InputNodes(A: seq<Node>, bs: seq<Handle>, t: Trans): (r: seq<Node>)
    requires forall j :: 0 <= j < |bs| ==> bs[j] < |A| && bs[j] in t
    ensures |r| == |bs| && forall j :: 0 <= j < |bs| ==> r[j] == InputNode(A, bs, t, j)
  {
    seq(|bs|, j requires 0 <= j < |bs| => InputNode(A, bs, t, j))
  }

  /** The clipped arena holds one new input node per boundary. */
  lemma ClipArenaLength(A: seq<Node>, L: Layers, rng: Range)
    requires !ClipFails(L, rng) && InArena(L, |A|)
    ensures |ClipArena(A, L, rng)| == |A| + |Boundaries(L, rng)|
  {
  }

  /** An arena built the way `clipNetwork` builds it, translating the nodes listed by `Flatten`, is `ClipArena`. */
  lemma ClipArenaIs(A: seq<Node>, L: Layers, rng: Range, bs: seq<Handle>, t: Trans)
    requires !ClipFails(L, rng) && InArena(L, |A|)
    requires bs == Boundaries(L, rng) && t == InputTable(L, rng, |A|)
    requires forall j :: 0 <= j < |bs| ==> bs[j] < |A| && bs[j] in t
    ensures ClipArena(A, L, rng) == TranslateAt(A + InputNodes(A, bs, t), (set h | h in Flatten(L)), t)
  {
    FlattenMembersAll(L);
    assert (set h | h in Flatten(L)) == NodeSet(L);
  }

  /**
    * Lines 23-25 and 29 of clip.py: each input the table keeps takes its boundary's limit
    * and its name with "_bdr" appended, then copies the boundary once more, which puts the
    * boundary's own name back.
    */
  method ClipInputs(g: Graph, bs: seq<Handle>, t: Trans, base: nat)
    requires |g.nodes| == base + |bs|
    requires forall j :: 0 <= j < |bs| ==> bs[j] < base
    requires forall i :: base <= i < |g.nodes| ==> g.nodes[i] == Node(Plain, Unbounded, None)
    requires forall j :: 0 <= j < |bs| ==> bs[j] in t && base <= t[bs[j]] < base + |bs|
    requires forall j :: 0 <= j < |bs| ==> bs[t[bs[j]] - base] == bs[j]
    modifies g
    ensures g.nodes == old(g.nodes)[..base] + InputNodes(old(g.nodes)[..base], bs, t)
  {
    ghost var A := g.nodes[..base];
    NameInputs(g, bs, t, base);
    ghost var B := g.nodes;
    RecopyInputs(g, bs, t, base);
    forall j | 0 <= j < |bs| ensures g.nodes[base + j] == InputNode(A, bs, t, j) {
      assert A[bs[j]] == B[bs[j]] by {
        assert B[..base][bs[j]] == B[bs[j]];
      }
    }
    assert g.nodes == g.nodes[..base] + g.nodes[base..];
  }

  /** Lines 23-25 of clip.py, visiting the kept inputs by position rather than in key order. */
  method NameInputs(g: Graph, bs: seq<Handle>, t: Trans, base: nat)
    requires |g.nodes| == base + |bs|
    requires forall j :: 0 <= j < |bs| ==> bs[j] < base && bs[j] in t
    requires forall i :: base <= i < |g.nodes| ==> g.nodes[i] == Node(Plain, Unbounded, None)
    modifies g
    ensures |g.nodes| == |old(g.nodes)| && g.nodes[..base] == old(g.nodes)[..base]
    ensures forall i :: base <= i < |g.nodes| ==> g.nodes[i].kind == Plain
    ensures forall j :: 0 <= j < |bs| ==>
              g.nodes[base + j] ==
                (if t[bs[j]] == base + j
                 then Node(Plain, old(g.nodes)[bs[j]].limit, Suffixed(old(g.nodes)[bs[j]].name, "_bdr"))
                 else Node(Plain, Unbounded, None))
  {
    var j := 0;
    while j < |bs|
      invariant j <= |bs|
      invariant |g.nodes| == base + |bs| && g.nodes[..base] == old(g.nodes)[..base]
      invariant forall i :: base <= i < |g.nodes| ==> g.nodes[i].kind == Plain
      invariant forall i :: 0 <= i < |bs| ==>
                  g.nodes[base + i] ==
                    (if i < j && t[bs[i]] == base + i
                     then Node(Plain, old(g.nodes)[bs[i]].limit, Suffixed(old(g.nodes)[bs[i]].name, "_bdr"))
                     else Node(Plain, Unbounded, None))
    {
      assert g.nodes[bs[j]] == g.nodes[..base][bs[j]];
      if t[bs[j]] == base + j {
        g.CopyFrom(base + j, bs[j]);
        if g.nodes[bs[j]].name.Some? {
          g.SetName(base + j, Some(g.nodes[bs[j]].name.value + "_bdr"));
        }
      }
      j := j + 1;
    }
  }

  /** Line 29 of clip.py: `inputs[n].copyFrom(n)` for every boundary, in order. */
  method RecopyInputs(g: Graph, bs: seq<Handle>, t: Trans, base: nat)
    requires |g.nodes| == base + |bs|
    requires forall j :: 0 <= j < |bs| ==> bs[j] < base && bs[j] in t && base <= t[bs[j]] < base + |bs|
    requires forall j :: 0 <= j < |bs| ==> bs[t[bs[j]] - base] == bs[j]
    requires forall i :: base <= i < |g.nodes| ==> g.nodes[i].kind == Plain
    modifies g
    ensures |g.nodes| == |old(g.nodes)| && g.nodes[..base] == old(g.nodes)[..base]
    ensures forall j :: 0 <= j < |bs| ==>
              g.nodes[base + j] ==
                (if t[bs[j]] == base + j then Node(Plain, old(g.nodes)[bs[j]].limit, old(g.nodes)[bs[j]].name)
                 else old(g.nodes)[base + j])
  {
    var j := 0;
    while j < |bs|
      invariant j <= |bs|
      invariant |g.nodes| == base + |bs| && g.nodes[..base] == old(g.nodes)[..base]
      invariant forall i :: base <= i < |g.nodes| ==> g.nodes[i].kind == Plain
      invariant forall i :: 0 <= i < |bs| ==>
                  g.nodes[base + i] ==
                    (if t[bs[i]] == base + i && bs[i] in bs[..j]
                     then Node(Plain, old(g.nodes)[bs[i]].limit, old(g.nodes)[bs[i]].name)
                     else old(g.nodes)[base + i])
    {
      assert bs[..j + 1] == bs[..j] + [bs[j]];
      assert g.nodes[bs[j]] == g.nodes[..base][bs[j]];
      var i := t[bs[j]] - base;
      assert bs[i] == bs[j] && t[bs[i]] == base + i;
      g.CopyFrom(t[bs[j]], bs[j]);
      j := j + 1;
    }
    assert bs[..|bs|] == bs;
  }

  /** Line 35 of clip.py: every listed node is translated, once per occurrence. */
  method TranslateAll(g: Graph, ns: seq<Handle>, t: Trans, base: nat)
    requires base <= |g.nodes|
    requires forall i :: 0 <= i < |ns| ==> ns[i] < base
    requires forall h :: h in t ==> h < base <= t[h]
    modifies g
    ensures g.nodes == TranslateAt(old(g.nodes), (set h | h in ns), t)
  {
    var i := 0;
    while i < |ns|
      invariant i <= |ns|
      invariant |g.nodes| == |old(g.nodes)|
      invariant forall h :: 0 <= h < |g.nodes| ==>
                  g.nodes[h] == if h in ns[..i] then old(g.nodes)[h].(kind := Translated(old(g.nodes)[h].kind, t)) else old(g.nodes)[h]
    {
      assert ns[..i + 1] == ns[..i] + [ns[i]];
      TranslatedIdempotent(old(g.nodes)[ns[i]].kind, t);
      g.Translate(ns[i], t);
      i := i + 1;
    }
    assert ns[..|ns|] == ns;
    ghost var R := TranslateAt(old(g.nodes), (set h | h in ns), t);
    assert forall h :: 0 <= h < |g.nodes| ==> g.nodes[h] == R[h];
  }

  /**
    * `clipNetwork(net, rng)`: fails with IndexOutOfRange, changing nothing, where the source
    * raises IndexError; otherwise installs the clipped layers, grows the arena as
    * `ClipArena` says, and ends with ReferentialIntegrity exactly when the final sanity
    * assertion fails.
    */
  method ClipNetwork(net: Network, g: Graph, rng: Range) returns (out: Outcome<Fault>)
    requires InArena(net.layers, |g.nodes|)
    modifies net, g
    ensures ClipFails(old(net.layers), rng) ==>
              out == Failed(IndexOutOfRange) && net.layers == old(net.layers) && g.nodes == old(g.nodes)
    ensures !ClipFails(old(net.layers), rng) ==>
              && net.layers == ClipLayers(old(net.layers), rng, |old(g.nodes)|)
              && g.nodes == ClipArena(old(g.nodes), old(net.layers), rng)
              && (out == Pass <==> SaneIn(net.layers, g.nodes))
              && (out != Pass ==> out == Failed(ReferentialIntegrity))
  {
    var L := net.layers;
    ghost var A := g.nodes;
    var W := Window(L, rng);
    if |W| == 0 {
      return Failed(IndexOutOfRange);
    }
    var found := CollectBoundaries(W[0], rng.firstMode);
    if found.Fail? {
      return Failed(IndexOutOfRange);
    }
    var bs := found.value;
    assert bs == Boundaries(L, rng);
    var base := |g.nodes|;
    var t := AddInputs(g, bs);
    assert t == InputTable(L, rng, base);
    ClipTables(L, A, rng, bs, t);
    assert g.nodes[..base] == A;
    ClipInputs(g, bs, t, base);
    net.layers := ClipLayers(L, rng, base);
    var ns := Flatten(L);
    assert |A| == base <= |g.nodes|;
    TranslateAll(g, ns, t, base);
    ClipArenaIs(A, L, rng, bs, t);
    out := if SaneIn(net.layers, g.nodes) then Pass else Failed(ReferentialIntegrity);
  }

  /**
    * The facts about the boundaries and their table that `clipNetwork`'s steps rely on: the
    * boundaries and every node of the network lie in the arena, and the table sends each
    * boundary to the fresh node at its own place past the arena.
    */
  lemma ClipTables(L: Layers, A: seq<Node>, rng: Range, bs: seq<Handle>, t: Trans)
    requires !ClipFails(L, rng) && InArena(L, |A|)
    requires bs == Boundaries(L, rng) && t == FreshTable(bs, |A|)
    ensures forall j :: 0 <= j < |bs| ==> bs[j] < |A|
    ensures forall j :: 0 <= j < |bs| ==> bs[j] in t && |A| <= t[bs[j]] < |A| + |bs| && bs[t[bs[j]] - |A|] == bs[j]
    ensures forall i :: 0 <= i < |Flatten(L)| ==> Flatten(L)[i] < |A|
    ensures forall h :: h in t ==> h < |A| <= t[h]
  {
    BoundariesInArena(L, A, rng);
    FreshTableFacts(bs, |A|, t);
    FlattenInArena(L, |A|);
  }

  /** The boundaries are nodes of the network, so they lie in its arena. */
  lemma BoundariesInArena(L: Layers, A: seq<Node>, rng: Range)
    requires !ClipFails(L, rng) && InArena(L, |A|)
    ensures forall j :: 0 <= j < |Boundaries(L, rng)| ==> Boundaries(L, rng)[j] < |A|
  {
    var bs := Boundaries(L, rng);
    forall j | 0 <= j < |bs| ensures bs[j] < |A| {
      PosInNodeSet(L, rng.firstLayer, j, rng.firstMode);
    }
  }

  /** A fresh table over handles below `base` sends each one past `base`, back to an occurrence of it. */
  lemma FreshTableFacts(bs: seq<Handle>, base: nat, t: Trans)
    requires forall j :: 0 <= j < |bs| ==> bs[j] < base
    requires t == FreshTable(bs, base)
    ensures forall j :: 0 <= j < |bs| ==> bs[j] in t && base <= t[bs[j]] < base + |bs| && bs[t[bs[j]] - base] == bs[j]
    ensures forall h :: h in t ==> h < base <= t[h]
  {
    forall j | 0 <= j < |bs| ensures bs[j] in t && base <= t[bs[j]] < base + |bs| && bs[t[bs[j]] - base] == bs[j] {
      FreshTableAt(bs, base, j);
    }
    forall h | h in t ensures h < base <= t[h] {
      var j :| 0 <= j < |bs| && bs[j] == h;
    }
  }

  /** Every listed node of a network in the arena lies in the arena. */
  lemma FlattenInArena(L: Layers, n: nat)
    requires InArena(L, n)
    ensures forall i :: 0 <= i < |Flatten(L)| ==> Flatten(L)[i] < n
  {
    var ns := Flatten(L);
    FlattenMembersAll(L);
    forall i | 0 <= i < |ns| ensures ns[i] < n {
      assert ns[i] in NodeSet(L);
    }
  }

  /** Line 19 of clip.py: the node at `mode` of every chain, or IndexError for a short chain. */
  method CollectBoundaries(layer: Layer, mode: nat) returns (r: Result<seq<Handle>, Fault>)
    ensures r.Fail? <==> exists c :: 0 <= c < |layer| && |layer[c]| <= mode
    ensures r.Fail? ==> r.error == IndexOutOfRange
    ensures r.Ok? ==> |r.value| == |layer| && forall c :: 0 <= c < |layer| ==> r.value[c] == layer[c][mode]
  {
    var bs: seq<Handle> := [];
    var c := 0;
    while c < |layer|
      invariant c <= |layer|
      invariant forall c' :: 0 <= c' < c ==> |layer[c']| > mode
      invariant |bs| == c && forall c' :: 0 <= c' < c ==> bs[c'] == layer[c'][mode]
    {
      if |layer[c]| <= mode {
        return Fail(IndexOutOfRange);
      }
      bs := bs + [layer[c][mode]];
      c := c + 1;
    }
    return Ok(bs);
  }

  /** Line 22 of clip.py: a fresh plain node per boundary; the table keeps the last one made for each. */
  method AddInputs(g: Graph, bs: seq<Handle>) returns (t: Trans)
    modifies g
    ensures t == FreshTable(bs, |old(g.nodes)|)
    ensures |g.nodes| == |old(g.nodes)| + |bs| && g.nodes[..|old(g.nodes)|] == old(g.nodes)
    ensures forall i :: |old(g.nodes)| <= i < |g.nodes| ==> g.nodes[i] == Node(Plain, Unbounded, None)
  {
    var base := |g.nodes|;
    t := map[];
    var j := 0;
    while j < |bs|
      invariant j <= |bs|
      invariant |g.nodes| == base + j && g.nodes[..base] == old(g.nodes)
      invariant forall i :: base <= i < base + j ==> g.nodes[i] == Node(Plain, Unbounded, None)
      invariant t == FreshTable(bs[..j], base)
    {
      var p := g.Add(Node(Plain, Unbounded, None));
      assert bs[..j + 1][..j] == bs[..j];
      t := t[bs[j] := p];
      j := j + 1;
    }
    assert bs[..|bs|] == bs;
  }

  // ---------------------------------------------------------------------------
  // What clipping does to the network

  /** Where each position of the clipped network comes from. */
  lemma ClipAt(L: Layers, rng: Range, base: nat, l: int, c: int, k: int)
    requires !ClipFails(L, rng) && IsPos(ClipLayers(L, rng, base), l, c, k)
    ensures var C := ClipLayers(L, rng, base);
            var f := rng.firstLayer;
            && (l == 0 && k == 0 ==> C[0][c][0] == InputTable(L, rng, base)[Boundaries(L, rng)[c]])
            && (l == 0 && k > 0 ==> IsPos(L, f, c, rng.firstMode + k) && C[0][c][k] == L[f][c][rng.firstMode + k])
            && (l > 0 ==> IsPos(L, f + l, c, k) && C[l][c][k] == L[f + l][c][k])
  {
    if l == 0 && k == 0 {
      ClipHead(L, rng, base, c);
    } else if l == 0 {
      ClipAtFirst(L, rng, base, c, k);
    } else if l + 1 < |Window(L, rng)| {
      ClipMiddle(L, rng, base, l);
    } else {
      ClipAtLast(L, rng, base, l, c, k);
    }
  }

  /** A later node of a chain of the clipped first layer is the node `firstMode` places further on. */
  lemma ClipAtFirst(L: Layers, rng: Range, base: nat, c: int, k: int)
    requires !ClipFails(L, rng) && IsPos(ClipLayers(L, rng, base), 0, c, k) && k > 0
    ensures IsPos(L, rng.firstLayer, c, rng.firstMode + k)
    ensures ClipLayers(L, rng, base)[0][c][k] == L[rng.firstLayer][c][rng.firstMode + k]
  {
    var W := Window(L, rng);
    var C := ClipLayers(L, rng, base);
    var tail := Drop(W[0][c], rng.firstMode + 1);
    assert C[0][c] == [InputTable(L, rng, base)[Boundaries(L, rng)[c]]] + FirstChainTail(L, rng, c);
    assert C[0][c][k] == FirstChainTail(L, rng, c)[k - 1];
    assert FirstChainTail(L, rng, c)[k - 1] == tail[k - 1];
  }

  /** A node of the clipped last layer, past the first, is the node at the same place. */
  lemma ClipAtLast(L: Layers, rng: Range, base: nat, l: int, c: int, k: int)
    requires !ClipFails(L, rng) && IsPos(ClipLayers(L, rng, base), l, c, k) && 0 < l && l + 1 == |Window(L, rng)|
    ensures IsPos(L, rng.firstLayer + l, c, k)
    ensures ClipLayers(L, rng, base)[l][c][k] == L[rng.firstLayer + l][c][k]
  {
    var W := Window(L, rng);
    assert ClipLayers(L, rng, base)[l][c] == Take(W[l][c], rng.lastMode + 1);
  }

  /** The last node of each chain of the clipped first layer, when more layers follow it. */
  lemma ClipFirstLast(L: Layers, rng: Range, base: nat, c: int)
    requires !ClipFails(L, rng) && |Window(L, rng)| > 1 && 0 <= c < |Window(L, rng)[0]|
    ensures var C := ClipLayers(L, rng, base);
            var ch := L[rng.firstLayer][c];
            && |C[0][c]| == |ch| - rng.firstMode
            && C[0][c][|C[0][c]| - 1] ==
                 if |ch| == rng.firstMode + 1 then InputTable(L, rng, base)[Boundaries(L, rng)[c]]
                 else ch[|ch| - 1]
  {
    var C := ClipLayers(L, rng, base);
    assert C[0][c] == [InputTable(L, rng, base)[Boundaries(L, rng)[c]]] + FirstChainTail(L, rng, c);
  }

  /** No node other than the boundaries themselves is a boundary. */
  ghost predicate BoundariesUnshared(L: Layers, rng: Range)
    requires !ClipFails(L, rng)
  {
    forall l, c, k :: IsPos(L, l, c, k) && (l != rng.firstLayer || k != rng.firstMode) ==>
      L[l][c][k] !in Boundaries(L, rng)
  }

  /** A network without repeated nodes shares no boundary with another position. */
  lemma DistinctUnshared(L: Layers, rng: Range)
    requires !ClipFails(L, rng) && Distinct(L)
    ensures BoundariesUnshared(L, rng)
  {
    var bs := Boundaries(L, rng);
    forall l, c, k | IsPos(L, l, c, k) && (l != rng.firstLayer || k != rng.firstMode)
      ensures L[l][c][k] !in bs
    {
      forall j | 0 <= j < |bs| ensures bs[j] != L[l][c][k] {
        assert IsPos(L, rng.firstLayer, j, rng.firstMode);
      }
    }
  }

  /** So the input table leaves every other node alone. */
  lemma NotBoundary(L: Layers, rng: Range, base: nat, l: int, c: int, k: int)
    requires !ClipFails(L, rng) && BoundariesUnshared(L, rng) && IsPos(L, l, c, k)
    requires l != rng.firstLayer || k != rng.firstMode
    ensures L[l][c][k] !in InputTable(L, rng, base)
  {
  }

  /** The nodes the clipped arena adds and the nodes it rewrites. */
  lemma ClipArenaAt(A: seq<Node>, L: Layers, rng: Range, h: int)
    requires !ClipFails(L, rng) && InArena(L, |A|)
    requires 0 <= h < |A| + |Boundaries(L, rng)|
    ensures var A' := ClipArena(A, L, rng);
            var t := InputTable(L, rng, |A|);
            && |A'| == |A| + |Boundaries(L, rng)|
            && (h < |A| && h in NodeSet(L) ==> A'[h] == A[h].(kind := Translated(A[h].kind, t)))
            && (h < |A| && h !in NodeSet(L) ==> A'[h] == A[h])
            && (h >= |A| ==> A'[h].kind == Plain)
  {
    var bs := Boundaries(L, rng);
    forall j | 0 <= j < |bs| ensures bs[j] in NodeSet(L) {
      PosInNodeSet(L, rng.firstLayer, j, rng.firstMode);
    }
  }

  /**
    * Each input of the clipped network is a new plain node past the old arena with the
    * limit and the name of the boundary node it replaces: the "_bdr" name that line 25 of
    * clip.py sets is undone by the copy at line 29.
    */
  lemma ClipInputNode(A: seq<Node>, L: Layers, rng: Range, c: int)
    requires !ClipFails(L, rng) && InArena(L, |A|) && 0 <= c < |Window(L, rng)[0]|
    ensures var C := ClipLayers(L, rng, |A|);
            var A' := ClipArena(A, L, rng);
            var b := L[rng.firstLayer][c][rng.firstMode];
            && |A| <= C[0][c][0] < |A'|
            && b < |A|
            && A'[C[0][c][0]] == Node(Plain, A[b].limit, A[b].name)
  {
    var bs := Boundaries(L, rng);
    var t := InputTable(L, rng, |A|);
    FreshTableAt(bs, |A|, c);
    BoundariesInArena(L, A, rng);
    var j := t[bs[c]] - |A|;
    assert bs[j] == bs[c];
    ClipHead(L, rng, |A|, c);
    ClipArenaLength(A, L, rng);
    ClipArenaFresh(A, L, rng, j);
  }

  /** The head of a chain of the clipped first layer is the table's entry for its boundary. */
  lemma ClipHead(L: Layers, rng: Range, base: nat, c: int)
    requires !ClipFails(L, rng) && 0 <= c < |Window(L, rng)[0]|
    ensures Boundaries(L, rng)[c] in InputTable(L, rng, base)
    ensures ClipLayers(L, rng, base)[0][c][0] == InputTable(L, rng, base)[Boundaries(L, rng)[c]]
  {
  }

  /** The fresh node made for the boundary at place `j` is `InputNode`. */
  lemma ClipArenaFresh(A: seq<Node>, L: Layers, rng: Range, j: int)
    requires !ClipFails(L, rng) && InArena(L, |A|) && 0 <= j < |Boundaries(L, rng)|
    requires Boundaries(L, rng)[j] < |A|
    ensures |A| + j < |ClipArena(A, L, rng)|
    ensures ClipArena(A, L, rng)[|A| + j] == InputNode(A, Boundaries(L, rng), InputTable(L, rng, |A|), j)
  {
    assert |A| + j !in NodeSet(L);
  }

  /** The position of the unclipped network a (non-input) position of the clipped one comes from. */
  function SourcePos(rng: Range, l: int, k: int): (int, int)
  {
    if l == 0 then (rng.firstLayer, rng.firstMode + k) else (rng.firstLayer + l, k)
  }

  /** What a position was allowed to read, passed through the input table, is allowed in the clipped network. */
  lemma ClipAllowed(L: Layers, rng: Range, base: nat, l: int, c: int, k: int, s: Handle)
    requires !ClipFails(L, rng) && BoundariesUnshared(L, rng)
    requires IsPos(ClipLayers(L, rng, base), l, c, k) && (l > 0 || k > 0)
    requires IsPos(L, SourcePos(rng, l, k).0, c, SourcePos(rng, l, k).1)
    requires s in Allowed(L, SourcePos(rng, l, k).0, c, SourcePos(rng, l, k).1)
    ensures Apply(InputTable(L, rng, base), s) in Allowed(ClipLayers(L, rng, base), l, c, k)
  {
    if SourcePos(rng, l, k).1 > 0 {
      ClipAllowedInChain(L, rng, base, l, c, k, s);
    } else {
      var p := L[rng.firstLayer + l - 1];
      var c' :| 0 <= c' < |p| && |p[c']| > 0 && s == p[c'][|p[c']| - 1];
      ClipAllowedAcross(L, rng, base, l, c', s);
    }
  }

  /** The case of a node that reads the node before it in its chain. */
  lemma ClipAllowedInChain(L: Layers, rng: Range, base: nat, l: int, c: int, k: int, s: Handle)
    requires !ClipFails(L, rng) && BoundariesUnshared(L, rng)
    requires IsPos(ClipLayers(L, rng, base), l, c, k) && (l > 0 || k > 0)
    requires IsPos(L, SourcePos(rng, l, k).0, c, SourcePos(rng, l, k).1)
    requires SourcePos(rng, l, k).1 > 0
    requires s == L[SourcePos(rng, l, k).0][c][SourcePos(rng, l, k).1 - 1]
    ensures Apply(InputTable(L, rng, base), s) in Allowed(ClipLayers(L, rng, base), l, c, k)
  {
    var C := ClipLayers(L, rng, base);
    var t := InputTable(L, rng, base);
    assert Allowed(C, l, c, k) == {C[l][c][k - 1]};
    if l == 0 && k == 1 {
      ClipAt(L, rng, base, 0, c, 0);
      FreshTableAt(Boundaries(L, rng), base, c);
      assert Apply(t, s) == C[0][c][0];
    } else {
      var (lo, ko) := SourcePos(rng, l, k);
      NotBoundary(L, rng, base, lo, c, ko - 1);
      ClipAt(L, rng, base, l, c, k - 1);
      assert Apply(t, s) == s == C[l][c][k - 1];
    }
  }

  /** The case of the head of a chain past the first layer, which reads the last nodes of the layer before. */
  lemma ClipAllowedAcross(L: Layers, rng: Range, base: nat, l: int, c': int, s: Handle)
    requires !ClipFails(L, rng) && BoundariesUnshared(L, rng)
    requires 0 < l < |Window(L, rng)|
    requires var p := L[rng.firstLayer + l - 1]; 0 <= c' < |p| && |p[c']| > 0 && s == p[c'][|p[c']| - 1]
    ensures Apply(InputTable(L, rng, base), s) in Lasts(ClipLayers(L, rng, base)[l - 1])
  {
    if l - 1 >= 1 {
      AcrossMiddle(L, rng, base, l - 1, c', s);
    } else {
      AcrossFirst(L, rng, base, c', s);
    }
  }

  /** A last node of a kept middle layer is kept as it is. */
  lemma AcrossMiddle(L: Layers, rng: Range, base: nat, m: int, c: int, s: Handle)
    requires !ClipFails(L, rng) && BoundariesUnshared(L, rng)
    requires 1 <= m && m + 1 < |Window(L, rng)|
    requires 0 <= c < |L[rng.firstLayer + m]| && |L[rng.firstLayer + m][c]| > 0
    requires s == L[rng.firstLayer + m][c][|L[rng.firstLayer + m][c]| - 1]
    ensures Apply(InputTable(L, rng, base), s) in Lasts(ClipLayers(L, rng, base)[m])
  {
    var C := ClipLayers(L, rng, base);
    ClipMiddle(L, rng, base, m);
    NotBoundary(L, rng, base, rng.firstLayer + m, c, |L[rng.firstLayer + m][c]| - 1);
    assert Apply(InputTable(L, rng, base), s) == s == C[m][c][|C[m][c]| - 1];
  }

  /** A kept layer strictly between the first and the last is kept as it is. */
  lemma ClipMiddle(L: Layers, rng: Range, base: nat, m: int)
    requires !ClipFails(L, rng) && 0 < m && m + 1 < |Window(L, rng)|
    ensures ClipLayers(L, rng, base)[m] == L[rng.firstLayer + m]
  {
  }

  /** A last node of the first kept layer is kept, or replaced by its input when it is the boundary. */
  lemma AcrossFirst(L: Layers, rng: Range, base: nat, c: int, s: Handle)
    requires !ClipFails(L, rng) && BoundariesUnshared(L, rng) && |Window(L, rng)| > 1
    requires 0 <= c < |L[rng.firstLayer]| && |L[rng.firstLayer][c]| > 0
    requires s == L[rng.firstLayer][c][|L[rng.firstLayer][c]| - 1]
    ensures Apply(InputTable(L, rng, base), s) in Lasts(ClipLayers(L, rng, base)[0])
  {
    var C := ClipLayers(L, rng, base);
    var ch := L[rng.firstLayer][c];
    ClipFirstLast(L, rng, base, c);
    if |ch| != rng.firstMode + 1 {
      NotBoundary(L, rng, base, rng.firstLayer, c, |ch| - 1);
    }
    assert Apply(InputTable(L, rng, base), s) == C[0][c][|C[0][c]| - 1];
  }

  /** One position of the clipped network reads only what a feed-forward network allows. */
  lemma ClipLayeredAt(A: seq<Node>, L: Layers, rng: Range, l: int, c: int, k: int)
    requires !ClipFails(L, rng) && InArena(L, |A|) && BoundariesUnshared(L, rng)
    requires IsPos(ClipLayers(L, rng, |A|), l, c, k)
    requires l > 0 || k > 0 ==>
               var (lo, ko) := SourcePos(rng, l, k);
               IsPos(L, lo, c, ko) ==>
                 L[lo][c][ko] < |A| && forall r :: r in ConnectedTo(A[L[lo][c][ko]].kind) ==> r in Allowed(L, lo, c, ko)
    ensures var C := ClipLayers(L, rng, |A|);
            var A' := ClipArena(A, L, rng);
            && C[l][c][k] < |A'|
            && forall r :: r in ConnectedTo(A'[C[l][c][k]].kind) ==> r in Allowed(C, l, c, k)
  {
    if l == 0 && k == 0 {
      ClipLayeredInput(A, L, rng, c);
    } else {
      var (lo, ko) := SourcePos(rng, l, k);
      ClipAt(L, rng, |A|, l, c, k);
      assert IsPos(L, lo, c, ko);
      PosInNodeSet(L, lo, c, ko);
      ClipLayeredInner(A, L, rng, l, c, k);
    }
  }

  /** An input of the clipped network is a plain node, which reads nothing. */
  lemma ClipLayeredInput(A: seq<Node>, L: Layers, rng: Range, c: int)
    requires !ClipFails(L, rng) && InArena(L, |A|)
    requires IsPos(ClipLayers(L, rng, |A|), 0, c, 0)
    ensures var C := ClipLayers(L, rng, |A|);
            var A' := ClipArena(A, L, rng);
            && C[0][c][0] < |A'|
            && ConnectedTo(A'[C[0][c][0]].kind) == []
  {
    var C := ClipLayers(L, rng, |A|);
    var bs := Boundaries(L, rng);
    ClipHead(L, rng, |A|, c);
    FreshTableAt(bs, |A|, c);
    ClipArenaAt(A, L, rng, C[0][c][0]);
  }

  /** A position of the clipped network that is not an input reads the translation of what its source read. */
  lemma ClipLayeredInner(A: seq<Node>, L: Layers, rng: Range, l: int, c: int, k: int)
    requires !ClipFails(L, rng) && InArena(L, |A|) && BoundariesUnshared(L, rng)
    requires IsPos(ClipLayers(L, rng, |A|), l, c, k) && (l > 0 || k > 0)
    requires IsPos(L, SourcePos(rng, l, k).0, c, SourcePos(rng, l, k).1)
    requires ClipLayers(L, rng, |A|)[l][c][k] == L[SourcePos(rng, l, k).0][c][SourcePos(rng, l, k).1]
    requires var x := L[SourcePos(rng, l, k).0][c][SourcePos(rng, l, k).1];
             x < |A| && forall s :: s in ConnectedTo(A[x].kind) ==> s in Allowed(L, SourcePos(rng, l, k).0, c, SourcePos(rng, l, k).1)
    ensures var C := ClipLayers(L, rng, |A|);
            var A' := ClipArena(A, L, rng);
            && C[l][c][k] < |A'|
            && forall r :: r in ConnectedTo(A'[C[l][c][k]].kind) ==> r in Allowed(C, l, c, k)
  {
    var C := ClipLayers(L, rng, |A|);
    var A' := ClipArena(A, L, rng);
    var t := InputTable(L, rng, |A|);
    var (lo, ko) := SourcePos(rng, l, k);
    var x := L[lo][c][ko];
    PosInNodeSet(L, lo, c, ko);
    ClipArenaAt(A, L, rng, x);
    TranslatedShape(A[x].kind, t);
    var rs := ConnectedTo(A[x].kind);
    forall r | r in ConnectedTo(A'[x].kind) ensures r in Allowed(C, l, c, k) {
      var i :| 0 <= i < |rs| && r == MapHandles(rs, t)[i];
      ClipAllowed(L, rng, |A|, l, c, k, rs[i]);
    }
  }

  /**
    * Clipping a feed-forward network without repeated nodes gives a feed-forward network,
    * so the final sanity assertion of `clipNetwork` holds.
    */
  lemma ClipLayered(A: seq<Node>, L: Layers, rng: Range)
    requires !ClipFails(L, rng) && Layered(L, A) && Distinct(L)
    ensures Layered(ClipLayers(L, rng, |A|), ClipArena(A, L, rng))
    ensures SaneIn(ClipLayers(L, rng, |A|), ClipArena(A, L, rng))
  {
    DistinctUnshared(L, rng);
    var C := ClipLayers(L, rng, |A|);
    var A' := ClipArena(A, L, rng);
    forall x | x in NodeSet(C) ensures x < |A'| {
      var l, c, k :| IsPos(C, l, c, k) && C[l][c][k] == x;
      ClipLayeredAt(A, L, rng, l, c, k);
    }
    forall l, c, k | IsPos(C, l, c, k)
      ensures C[l][c][k] in NodeSet(C)
      ensures forall r :: r in ConnectedTo(A'[C[l][c][k]].kind) ==> r in Allowed(C, l, c, k)
    {
      PosInNodeSet(C, l, c, k);
      ClipLayeredAt(A, L, rng, l, c, k);
    }
    LayeredIsSane(C, A');
  }
}
