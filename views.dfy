/**
  * The two containers of nodes (src/redy/framework/views.py): ViewIO, a flat node list
  * with inputs, outputs and equations, and ViewNetwork (here `Network`), a list of
  * layers, each a list of neuron chains of nodes.
  */
module Views {
  import opened Wrappers
  import opened Nodes
  import opened Equations

  type Chain = seq<Handle>
  type Layer = seq<Chain>
  type Layers = seq<Layer>

  // ---------------------------------------------------------------------------
  // ViewIO

  datatype ViewIO = ViewIO(nodes: seq<Handle>, inputs: seq<Handle>, outputs: seq<Handle>, equations: seq<Equation>)

  /** `ViewIO.sanity`: inputs, outputs and every node an equation names are members of `nodes`. */
  predicate IOSane(v: ViewIO)
    reads v.equations
  {
    && (forall x :: x in v.inputs + v.outputs ==> x in v.nodes)
    && (forall e, i :: e in v.equations && 0 <= i < |e.terms| ==> e.terms[i].1 in v.nodes)
  }

  // ---------------------------------------------------------------------------
  // Positions and the node set of a layered network

  predicate IsPos(L: Layers, l: int, c: int, k: int)
  {
    0 <= l < |L| && 0 <= c < |L[l]| && 0 <= k < |L[l][c]|
  }

  /** `set(self.nodes())`. */
  function NodeSet(L: Layers): set<Handle>
  {
    set l, c, k | 0 <= l < |L| && 0 <= c < |L[l]| && 0 <= k < |L[l][c]| :: L[l][c][k]
  }

  /** Every handle of the network names a node of the arena. */
  predicate InArena(L: Layers, n: nat)
  {
    forall h :: h in NodeSet(L) ==> h < n
  }

  /** Every neuron chain holds at least one node (the source reads `ns[0]` and `ns[-1]`). */
  predicate NonEmptyChains(L: Layers)
  {
    forall l, c :: 0 <= l < |L| && 0 <= c < |L[l]| ==> |L[l][c]| > 0
  }

  /** No node stands at two positions of the network. */
  ghost predicate Distinct(L: Layers)
  {
    forall l, c, k, l', c', k' ::
      IsPos(L, l, c, k) && IsPos(L, l', c', k') && L[l][c][k] == L[l'][c'][k'] ==>
        l == l' && c == c' && k == k'
  }

  /** `ViewNetwork.sanity`: every node's `connectedTo` lies inside the network. */
  predicate SaneIn(L: Layers, A: seq<Node>)
  {
    && InArena(L, |A|)
    && forall h :: h in NodeSet(L) ==> forall r :: r in ConnectedTo(A[h].kind) ==> r in NodeSet(L)
  }

  /**
    * The loops of `sanity`, position by position: the node at every position exists and
    * every node it reads is a node of the network.
    */
  predicate SaneAtEveryPosition(L: Layers, A: seq<Node>)
  {
    forall l, c, k | 0 <= l < |L| && 0 <= c < |L[l]| && 0 <= k < |L[l][c]| ::
      L[l][c][k] < |A| && forall r :: r in ConnectedTo(A[L[l][c][k]].kind) ==> r in NodeSet(L)
  }

  /** `SaneIn`, stated over the node set, is the position-by-position sanity of the loops. */
  lemma SaneMeaning(L: Layers, A: seq<Node>)
    ensures SaneIn(L, A) <==> SaneAtEveryPosition(L, A)
  {
    if SaneIn(L, A) {
      forall l, c, k | IsPos(L, l, c, k)
        ensures L[l][c][k] < |A| && forall r :: r in ConnectedTo(A[L[l][c][k]].kind) ==> r in NodeSet(L)
      {
        PosInNodeSet(L, l, c, k);
      }
    }
    if SaneAtEveryPosition(L, A) {
      forall h | h in NodeSet(L) ensures h < |A| && forall r :: r in ConnectedTo(A[h].kind) ==> r in NodeSet(L) {
        var l, c, k :| IsPos(L, l, c, k) && L[l][c][k] == h;
      }
    }
  }

  /** The last node of every (non-empty) chain of a layer. */
  function Lasts(layer: Layer): set<Handle>
  {
    set c | 0 <= c < |layer| && |layer[c]| > 0 :: layer[c][|layer[c]| - 1]
  }

  /**
    * The references a feed-forward network allows at a position: the previous node of the
    * same chain, or, for the head of a chain, the last nodes of the previous layer.
    */
  function Allowed(L: Layers, l: nat, c: nat, k: nat): set<Handle>
    requires IsPos(L, l, c, k)
  {
    if k > 0 then {L[l][c][k - 1]}
    else if l > 0 then Lasts(L[l - 1])
    else {}
  }

  /**
    * The shape every network built by the importers has, and that clipping and neuron
    * replacement keep: each node reads only what `Allowed` permits.
    */
  ghost predicate Layered(L: Layers, A: seq<Node>)
  {
    && InArena(L, |A|)
    && forall l, c, k :: IsPos(L, l, c, k) ==>
         L[l][c][k] in NodeSet(L) &&
         forall r :: r in ConnectedTo(A[L[l][c][k]].kind) ==> r in Allowed(L, l, c, k)
  }

  lemma PosInNodeSet(L: Layers, l: int, c: int, k: int)
    requires IsPos(L, l, c, k)
    ensures L[l][c][k] in NodeSet(L)
  {
  }

  /** A feed-forward network passes `sanity`. */
  lemma LayeredIsSane(L: Layers, A: seq<Node>)
    requires Layered(L, A)
    ensures SaneIn(L, A)
  {
    forall h, r | h in NodeSet(L) && r in ConnectedTo(A[h].kind) ensures r in NodeSet(L) {
      var l, c, k :| IsPos(L, l, c, k) && L[l][c][k] == h;
      assert r in Allowed(L, l, c, k);
      if k > 0 {
        PosInNodeSet(L, l, c, k - 1);
      } else {
        var c' :| 0 <= c' < |L[l - 1]| && |L[l - 1][c']| > 0 && r == L[l - 1][c'][|L[l - 1][c']| - 1];
        PosInNodeSet(L, l - 1, c', |L[l - 1][c']| - 1);
      }
    }
  }

  /** `[ns[-1] for ns in layer]`: the outputs of a layer, one per chain. */
  function Outputs(layer: Layer): (r: seq<Handle>)
    requires forall c :: 0 <= c < |layer| ==> |layer[c]| > 0
    ensures |r| == |layer|
    ensures forall c :: 0 <= c < |layer| ==> r[c] == layer[c][|layer[c]| - 1] && r[c] in Lasts(layer)
  {
    seq(|layer|, c requires 0 <= c < |layer| => layer[c][|layer[c]| - 1])
  }

  /** `[ns[0] for ns in layer]`: the first node of every chain of a layer. */
  function FirstNodes(layer: Layer): (r: seq<Handle>)
    requires forall c :: 0 <= c < |layer| ==> |layer[c]| > 0
    ensures |r| == |layer|
    ensures forall c :: 0 <= c < |layer| ==> r[c] == layer[c][0]
  {
    seq(|layer|, c requires 0 <= c < |layer| => layer[c][0])
  }

  /** Some chain of the layer is empty, so `ns[0]` or `ns[-1]` on it raises `IndexError`. */
  predicate HasEmptyChain(layer: Layer)
  {
    exists c :: 0 <= c < |layer| && |layer[c]| == 0
  }

  /** The heads of the first layer and the outputs of the last layer are nodes of the network. */
  lemma HeadsAndOutputsInside(L: Layers)
    requires |L| > 0 && !HasEmptyChain(L[0]) && !HasEmptyChain(L[|L| - 1])
    ensures forall x :: x in FirstNodes(L[0]) + Outputs(L[|L| - 1]) ==> x in Flatten(L)
  {
    FlattenMembersAll(L);
    HeadsInside(L);
    OutputsInside(L);
  }

  lemma HeadsInside(L: Layers)
    requires |L| > 0 && !HasEmptyChain(L[0])
    ensures forall x :: x in FirstNodes(L[0]) ==> x in NodeSet(L)
  {
    forall x | x in FirstNodes(L[0]) ensures x in NodeSet(L) {
      var c :| 0 <= c < |L[0]| && FirstNodes(L[0])[c] == x;
      PosInNodeSet(L, 0, c, 0);
    }
  }

  lemma OutputsInside(L: Layers)
    requires |L| > 0 && !HasEmptyChain(L[|L| - 1])
    ensures forall x :: x in Outputs(L[|L| - 1]) ==> x in NodeSet(L)
  {
    var last := L[|L| - 1];
    forall x | x in Outputs(last) ensures x in NodeSet(L) {
      var c :| 0 <= c < |last| && Outputs(last)[c] == x;
      assert |last[c]| > 0;
      PosInNodeSet(L, |L| - 1, c, |last[c]| - 1);
    }
  }

  /**
    * A network being built layer by layer stays feed-forward when a chain of fresh nodes is
    * appended to its last non-empty layer, provided each new node reads only what its
    * position allows.
    */
  lemma AppendChainLayered(L: Layers, A: seq<Node>, l: nat, ch: Chain, B: seq<Node>)
    requires Layered(L, A)
    requires l < |L| && forall j :: l < j < |L| ==> L[j] == []
    requires |A| <= |B| && B[..|A|] == A
    requires forall k :: 0 <= k < |ch| ==> |A| <= ch[k] < |B|
    requires forall k, r :: 0 <= k < |ch| && r in ConnectedTo(B[ch[k]].kind) ==>
               r in Allowed(L[l := L[l] + [ch]], l, |L[l]|, k)
    ensures Layered(L[l := L[l] + [ch]], B)
  {
    var L' := L[l := L[l] + [ch]];
    forall h | h in NodeSet(L') ensures h < |B| {
      var l0, c0, k0 :| IsPos(L', l0, c0, k0) && L'[l0][c0][k0] == h;
      if !(l0 == l && c0 == |L[l]|) {
        assert IsPos(L', l0, c0, k0);
        assert L'[l0][c0] == L[l0][c0];
        PosInNodeSet(L, l0, c0, k0);
      }
    }
    forall l0, c0, k0 | IsPos(L', l0, c0, k0)
      ensures L'[l0][c0][k0] in NodeSet(L')
      ensures forall r :: r in ConnectedTo(B[L'[l0][c0][k0]].kind) ==> r in Allowed(L', l0, c0, k0)
    {
      PosInNodeSet(L', l0, c0, k0);
      if !(l0 == l && c0 == |L[l]|) {
        assert L'[l0][c0] == L[l0][c0];
        assert IsPos(L, l0, c0, k0);
        PosInNodeSet(L, l0, c0, k0);
        var h := L[l0][c0][k0];
        assert B[h] == A[h];
        if k0 == 0 && l0 > 0 {
          assert L'[l0 - 1] == L[l0 - 1];
        }
        assert Allowed(L', l0, c0, k0) == Allowed(L, l0, c0, k0);
      }
    }
  }

  /** Appending a chain of distinct fresh nodes keeps every node at a single position. */
  lemma AppendChainDistinct(L: Layers, n: nat, l: nat, ch: Chain)
    requires Distinct(L) && InArena(L, n) && l < |L|
    requires forall k :: 0 <= k < |ch| ==> n <= ch[k]
    requires forall k, k' :: 0 <= k < k' < |ch| ==> ch[k] != ch[k']
    ensures Distinct(L[l := L[l] + [ch]])
  {
    var L' := L[l := L[l] + [ch]];
    forall l0, c0, k0, l1, c1, k1 | IsPos(L', l0, c0, k0) && IsPos(L', l1, c1, k1) && L'[l0][c0][k0] == L'[l1][c1][k1]
      ensures l0 == l1 && c0 == c1 && k0 == k1
    {
      var new0 := l0 == l && c0 == |L[l]|;
      var new1 := l1 == l && c1 == |L[l]|;
      if !new0 {
        assert L'[l0][c0] == L[l0][c0];
        PosInNodeSet(L, l0, c0, k0);
      }
      if !new1 {
        assert L'[l1][c1] == L[l1][c1];
        PosInNodeSet(L, l1, c1, k1);
      }
      if new0 && new1 {
        assert ch[k0] == ch[k1];
      }
    }
  }

  // ---------------------------------------------------------------------------
  // nodes(): the layer-major, chain-major flattening

  function Concat(layer: Layer): seq<Handle>
  {
    if layer == [] then [] else layer[0] + Concat(layer[1..])
  }

  /** `nodes()`. */
  function Flatten(L: Layers): seq<Handle>
  {
    if L == [] then [] else Concat(L[0]) + Flatten(L[1..])
  }

  /** The number of nodes in the chains of a layer. */
  function LayerTotal(layer: Layer): nat
  {
    if layer == [] then 0 else |layer[0]| + LayerTotal(layer[1..])
  }

  /** The number of nodes in the first `l` layers. */
  function Total(L: Layers): nat
  {
    if L == [] then 0 else LayerTotal(L[0]) + Total(L[1..])
  }

  lemma {:induction false} ConcatAt(layer: Layer, c: nat, k: nat)
    requires c < |layer| && k < |layer[c]|
    ensures LayerTotal(layer[..c]) + k < |Concat(layer)| == LayerTotal(layer)
    ensures Concat(layer)[LayerTotal(layer[..c]) + k] == layer[c][k]
    decreases c
  {
    if c == 0 {
      ConcatLength(layer[1..]);
      assert layer[..0] == [];
    } else {
      ConcatAt(layer[1..], c - 1, k);
      assert layer[..c][1..] == layer[1..][..c - 1];
      assert layer[..c][0] == layer[0];
    }
  }

  lemma {:induction false} ConcatLength(layer: Layer)
    ensures |Concat(layer)| == LayerTotal(layer)
    decreases |layer|
  {
    if layer != [] {
      ConcatLength(layer[1..]);
    }
  }

  /**
    * `nodes()` lists the network layer by layer and, inside a layer, chain by chain: the
    * node at position (l, c, k) sits at index Total(L[..l]) + LayerTotal(L[l][..c]) + k, and
    * the list is as long as all chains together.
    */
  lemma {:induction false} FlattenAt(L: Layers, l: nat, c: nat, k: nat)
    requires IsPos(L, l, c, k)
    ensures Total(L[..l]) + LayerTotal(L[l][..c]) + k < |Flatten(L)| == Total(L)
    ensures Flatten(L)[Total(L[..l]) + LayerTotal(L[l][..c]) + k] == L[l][c][k]
    decreases l
  {
    if l == 0 {
      ConcatAt(L[0], c, k);
      FlattenLength(L[1..]);
      assert L[..0] == [];
    } else {
      FlattenAt(L[1..], l - 1, c, k);
      ConcatLength(L[0]);
      assert L[..l][1..] == L[1..][..l - 1];
      assert L[..l][0] == L[0];
    }
  }

  lemma {:induction false} FlattenLength(L: Layers)
    ensures |Flatten(L)| == Total(L)
    decreases |L|
  {
    if L != [] {
      ConcatLength(L[0]);
      FlattenLength(L[1..]);
    }
  }

  lemma {:induction false} ConcatMembers(layer: Layer, h: Handle)
    ensures h in Concat(layer) <==> exists c, k :: 0 <= c < |layer| && 0 <= k < |layer[c]| && layer[c][k] == h
    decreases |layer|
  {
    if layer != [] {
      ConcatMembers(layer[1..], h);
      if h in Concat(layer) {
        if h in layer[0] {
          var k :| 0 <= k < |layer[0]| && layer[0][k] == h;
          assert layer[0][k] == h;
        } else {
          var c, k :| 0 <= c < |layer[1..]| && 0 <= k < |layer[1..][c]| && layer[1..][c][k] == h;
          assert layer[c + 1][k] == h;
        }
      }
      if exists c, k :: 0 <= c < |layer| && 0 <= k < |layer[c]| && layer[c][k] == h {
        var c, k :| 0 <= c < |layer| && 0 <= k < |layer[c]| && layer[c][k] == h;
        if c > 0 {
          assert layer[1..][c - 1][k] == h;
        }
      }
    }
  }

  /** `set(nodes())` is the set of nodes at the positions of the network. */
  lemma {:induction false} FlattenMembers(L: Layers, h: Handle)
    ensures h in Flatten(L) <==> h in NodeSet(L)
    decreases |L|
  {
    if L != [] {
      FlattenMembers(L[1..], h);
      ConcatMembers(L[0], h);
      if h in Flatten(L) {
        if h in Concat(L[0]) {
          var c, k :| 0 <= c < |L[0]| && 0 <= k < |L[0][c]| && L[0][c][k] == h;
          PosInNodeSet(L, 0, c, k);
        } else {
          var l, c, k :| IsPos(L[1..], l, c, k) && L[1..][l][c][k] == h;
          assert IsPos(L[1..], l, c, k);
          assert L[1..][l] == L[l + 1];
          PosInNodeSet(L, l + 1, c, k);
        }
      }
      if h in NodeSet(L) {
        var l, c, k :| IsPos(L, l, c, k) && L[l][c][k] == h;
        assert IsPos(L, l, c, k);
        if l > 0 {
          assert L[1..][l - 1] == L[l];
          PosInNodeSet(L[1..], l - 1, c, k);
        } else {
          assert L[0][c][k] == h;
        }
      }
    }
  }

  lemma FlattenMembersAll(L: Layers)
    ensures forall h :: h in Flatten(L) <==> h in NodeSet(L)
  {
    forall h ensures h in Flatten(L) <==> h in NodeSet(L) {
      FlattenMembers(L, h);
    }
  }

  // ---------------------------------------------------------------------------
  // duplicate()

  /** Every handle of a network passed through a substitution; the shape is kept. */
  function MapLayers(L: Layers, t: Trans): (r: Layers)
    ensures |r| == |L|
    ensures forall l :: 0 <= l < |L| ==> |r[l]| == |L[l]|
    ensures forall l, c :: 0 <= l < |L| && 0 <= c < |L[l]| ==> |r[l][c]| == |L[l][c]|
    ensures forall l, c, k :: IsPos(r, l, c, k) <==> IsPos(L, l, c, k)
    ensures forall l, c, k :: IsPos(L, l, c, k) ==> r[l][c][k] == Apply(t, L[l][c][k])
  {
    seq(|L|, l requires 0 <= l < |L| =>
      seq(|L[l]|, c requires 0 <= c < |L[l]| => MapHandles(L[l][c], t)))
  }

  /**
    * `{n: <new node> for n in hs}` when the i-th new node is the handle base + i: a repeated
    * key keeps the node made for its last occurrence.
    */
  function FreshTable(hs: seq<Handle>, base: nat): (t: Trans)
    ensures t.Keys == set h | h in hs
  {
    if hs == [] then map[]
    else FreshTable(hs[..|hs| - 1], base)[hs[|hs| - 1] := base + |hs| - 1]
  }

  /**
    * The value of an entry lies in [base + j, base + |hs|) for each of its positions j,
    * and it indexes back to an occurrence of that same entry: so different entries get
    * different values.
    */
  lemma {:induction false} FreshTableAt(hs: seq<Handle>, base: nat, j: nat)
    requires j < |hs|
    ensures hs[j] in FreshTable(hs, base)
    ensures base + j <= FreshTable(hs, base)[hs[j]] < base + |hs|
    ensures hs[FreshTable(hs, base)[hs[j]] - base] == hs[j]
    decreases |hs|
  {
    var n := |hs| - 1;
    var front := hs[..n];
    if hs[j] != hs[n] {
      FreshTableAt(front, base, j);
      var v := FreshTable(front, base)[front[j]];
      assert hs[v - base] == front[v - base];
    }
  }

  function Suffixed(name: Option<string>, suffix: string): Option<string>
  {
    if name.Some? then Some(name.value + suffix) else None
  }

  /** The copy of a node in the duplicate: translated, with the suffix on its name. */
  function Duplicated(n: Node, t: Trans, suffix: string): Node
  {
    Node(Translated(n.kind, t), n.limit, Suffixed(n.name, suffix))
  }

  /** The substitution of `duplicate`: source node to its copy. */
  function DupTable(L: Layers, base: nat): Trans
  {
    FreshTable(Flatten(L), base)
  }

  /**
    * The arena after `duplicate`: one copy per entry of `nodes()` is appended; the copies
    * that end up as values of the table are suffixed and translated, the others (made for
    * a repeated entry and then replaced) stay raw copies.
    */
  function DuplicateArena(A: seq<Node>, L: Layers, suffix: string): seq<Node>
    requires InArena(L, |A|)
  {
    var ns := Flatten(L);
    var t := DupTable(L, |A|);
    FlattenMembersAll(L);
    A + seq(|ns|, j requires 0 <= j < |ns| =>
      if t[ns[j]] == |A| + j then Duplicated(A[ns[j]], t, suffix) else A[ns[j]])
  }

  /** An arena that agrees with `DuplicateArena` copy by copy is that arena. */
  lemma DuplicateArenaPointwise(A: seq<Node>, L: Layers, suffix: string, B: seq<Node>)
    requires InArena(L, |A|)
    requires forall j :: 0 <= j < |Flatten(L)| ==> Flatten(L)[j] < |A|
    requires |B| == |A| + |Flatten(L)| && B[..|A|] == A
    requires forall j :: 0 <= j < |Flatten(L)| ==>
               B[|A| + j] ==
                 (var h := Flatten(L)[j];
                  if DupTable(L, |A|)[h] == |A| + j then Duplicated(A[h], DupTable(L, |A|), suffix) else A[h])
    ensures B == DuplicateArena(A, L, suffix)
  {
    var C := DuplicateArena(A, L, suffix);
    forall i | 0 <= i < |B| ensures B[i] == C[i] {
      if i < |A| {
        assert B[i] == B[..|A|][i];
      } else {
        assert B[|A| + (i - |A|)] == C[|A| + (i - |A|)];
      }
    }
  }

  /**
    * Each source node's copy lies past the old arena, so it is none of the source nodes,
    * and it is the duplicated source node: same class, limit and payload, references
    * passed through the table, name suffixed.
    */
  lemma DuplicateCopies(A: seq<Node>, L: Layers, suffix: string, h: Handle)
    requires InArena(L, |A|)
    requires h in NodeSet(L)
    ensures var t := DupTable(L, |A|);
            && h in t && |A| <= t[h] < |DuplicateArena(A, L, suffix)|
            && DuplicateArena(A, L, suffix)[t[h]] == Duplicated(A[h], t, suffix)
  {
    var ns := Flatten(L);
    var t := DupTable(L, |A|);
    FlattenMembers(L, h);
    var j :| 0 <= j < |ns| && ns[j] == h;
    FreshTableAt(ns, |A|, j);
    var j' := t[h] - |A|;
    assert ns[j'] == h;
    DuplicateArenaAt(A, L, suffix, j');
  }

  /** The entry of `DuplicateArena` at the copy made for position `j` of `nodes()`. */
  lemma DuplicateArenaAt(A: seq<Node>, L: Layers, suffix: string, j: nat)
    requires InArena(L, |A|) && j < |Flatten(L)| && Flatten(L)[j] < |A|
    requires Flatten(L)[j] in DupTable(L, |A|) && DupTable(L, |A|)[Flatten(L)[j]] == |A| + j
    ensures |A| + j < |DuplicateArena(A, L, suffix)|
    ensures DuplicateArena(A, L, suffix)[|A| + j] == Duplicated(A[Flatten(L)[j]], DupTable(L, |A|), suffix)
  {
    FlattenMembersAll(L);
  }

  /** Two different source nodes get two different copies. */
  lemma DuplicateInjective(A: seq<Node>, L: Layers, h: Handle, h': Handle)
    requires h in NodeSet(L) && h' in NodeSet(L) && h != h'
    ensures h in DupTable(L, |A|) && h' in DupTable(L, |A|)
    ensures DupTable(L, |A|)[h] != DupTable(L, |A|)[h']
  {
    var ns := Flatten(L);
    FlattenMembers(L, h);
    FlattenMembers(L, h');
    var j :| 0 <= j < |ns| && ns[j] == h;
    var j' :| 0 <= j' < |ns| && ns[j'] == h';
    FreshTableAt(ns, |A|, j);
    FreshTableAt(ns, |A|, j');
  }

  /** The duplicate's layers: same number of layers, chains per layer and chain lengths. */
  lemma DuplicateShape(A: seq<Node>, L: Layers)
    requires InArena(L, |A|)
    ensures var D := MapLayers(L, DupTable(L, |A|));
            && |D| == |L|
            && (forall l :: 0 <= l < |L| ==> |D[l]| == |L[l]|)
            && (forall l, c :: 0 <= l < |L| && 0 <= c < |L[l]| ==> |D[l][c]| == |L[l][c]|)
            && (forall l, c, k :: IsPos(L, l, c, k) ==> D[l][c][k] >= |A| && D[l][c][k] !in NodeSet(L))
  {
    var t := DupTable(L, |A|);
    forall l, c, k | IsPos(L, l, c, k)
      ensures MapLayers(L, t)[l][c][k] >= |A| && MapLayers(L, t)[l][c][k] !in NodeSet(L)
    {
      PosInNodeSet(L, l, c, k);
      DuplicateCopies(A, L, "", L[l][c][k]);
    }
  }

  /** The copy at a position of the duplicate reads the translated references of its source. */
  lemma DuplicateRefsAt(A: seq<Node>, L: Layers, suffix: string, l: int, c: int, k: int)
    requires InArena(L, |A|) && IsPos(L, l, c, k)
    ensures var t := DupTable(L, |A|);
            var x := MapLayers(L, t)[l][c][k];
            var A' := DuplicateArena(A, L, suffix);
            && L[l][c][k] < |A| && x < |A'|
            && ConnectedTo(A'[x].kind) == MapHandles(ConnectedTo(A[L[l][c][k]].kind), t)
  {
    var t := DupTable(L, |A|);
    PosInNodeSet(L, l, c, k);
    DuplicateCopies(A, L, suffix, L[l][c][k]);
    TranslatedShape(A[L[l][c][k]].kind, t);
  }

  /** The duplicate of a sane network is sane. */
  lemma DuplicateSane(A: seq<Node>, L: Layers, suffix: string)
    requires SaneIn(L, A)
    ensures SaneIn(MapLayers(L, DupTable(L, |A|)), DuplicateArena(A, L, suffix))
  {
    var t := DupTable(L, |A|);
    var D := MapLayers(L, t);
    var A' := DuplicateArena(A, L, suffix);
    forall x | x in NodeSet(D)
      ensures x < |A'| && forall r :: r in ConnectedTo(A'[x].kind) ==> r in NodeSet(D)
    {
      var l, c, k :| IsPos(D, l, c, k) && D[l][c][k] == x;
      assert IsPos(L, l, c, k);
      var h := L[l][c][k];
      DuplicateRefsAt(A, L, suffix, l, c, k);
      PosInNodeSet(L, l, c, k);
      forall r | r in ConnectedTo(A'[x].kind) ensures r in NodeSet(D) {
        var rs := ConnectedTo(A[h].kind);
        var i :| 0 <= i < |rs| && r == MapHandles(rs, t)[i];
        assert rs[i] in NodeSet(L);
        var l', c', k' :| IsPos(L, l', c', k') && L[l'][c'][k'] == rs[i];
        assert IsPos(L, l', c', k');
        PosInNodeSet(D, l', c', k');
      }
    }
  }

  /** The duplicate of a feed-forward network is feed-forward. */
  lemma DuplicateLayered(A: seq<Node>, L: Layers, suffix: string)
    requires Layered(L, A)
    ensures Layered(MapLayers(L, DupTable(L, |A|)), DuplicateArena(A, L, suffix))
  {
    var t := DupTable(L, |A|);
    var D := MapLayers(L, t);
    var A' := DuplicateArena(A, L, suffix);
    forall x | x in NodeSet(D) ensures x < |A'| {
      var l, c, k :| IsPos(D, l, c, k) && D[l][c][k] == x;
      assert IsPos(L, l, c, k);
      DuplicateRefsAt(A, L, suffix, l, c, k);
    }
    forall l, c, k | IsPos(D, l, c, k)
      ensures D[l][c][k] in NodeSet(D)
      ensures forall r :: r in ConnectedTo(A'[D[l][c][k]].kind) ==> r in Allowed(D, l, c, k)
    {
      assert IsPos(L, l, c, k);
      var h := L[l][c][k];
      PosInNodeSet(D, l, c, k);
      DuplicateRefsAt(A, L, suffix, l, c, k);
      forall r | r in ConnectedTo(A'[D[l][c][k]].kind) ensures r in Allowed(D, l, c, k) {
        var rs := ConnectedTo(A[h].kind);
        var i :| 0 <= i < |rs| && r == MapHandles(rs, t)[i];
        assert rs[i] in Allowed(L, l, c, k);
        if k == 0 {
          var c' :| 0 <= c' < |L[l - 1]| && |L[l - 1][c']| > 0 && rs[i] == L[l - 1][c'][|L[l - 1][c']| - 1];
          assert IsPos(L, l - 1, c', |L[l - 1][c']| - 1);
          assert r == D[l - 1][c'][|D[l - 1][c']| - 1];
        }
      }
    }
  }

  /** Distinct source nodes have distinct copies, so the duplicate has no repeated node either. */
  lemma DuplicateDistinct(A: seq<Node>, L: Layers)
    requires InArena(L, |A|) && Distinct(L)
    ensures Distinct(MapLayers(L, DupTable(L, |A|)))
  {
    var t := DupTable(L, |A|);
    var D := MapLayers(L, t);
    forall l, c, k, l', c', k' | IsPos(D, l, c, k) && IsPos(D, l', c', k') && D[l][c][k] == D[l'][c'][k']
      ensures l == l' && c == c' && k == k'
    {
      PosInNodeSet(L, l, c, k);
      PosInNodeSet(L, l', c', k');
      if L[l][c][k] != L[l'][c'][k'] {
        DuplicateInjective(A, L, L[l][c][k], L[l'][c'][k']);
      }
    }
  }

  // The three passes of `duplicate` over `nodes()`.

  /** Appends a copy of each listed node, in order; the table maps each to its copy. */
  method CopyNodes(g: Graph, ns: seq<Handle>) returns (t: Trans)
    requires forall j :: 0 <= j < |ns| ==> ns[j] < |g.nodes|
    modifies g
    ensures t == FreshTable(ns, |old(g.nodes)|)
    ensures |g.nodes| == |old(g.nodes)| + |ns| && g.nodes[..|old(g.nodes)|] == old(g.nodes)
    ensures forall j :: 0 <= j < |ns| ==> g.nodes[|old(g.nodes)| + j] == old(g.nodes)[ns[j]]
  {
    var base := |g.nodes|;
    t := map[];
    var i := 0;
    while i < |ns|
      invariant i <= |ns|
      invariant |g.nodes| == base + i && g.nodes[..base] == old(g.nodes)
      invariant forall j :: 0 <= j < i ==> g.nodes[base + j] == old(g.nodes)[ns[j]]
      invariant t == FreshTable(ns[..i], base)
    {
      ghost var before := g.nodes;
      var d := g.DuplicateNode(ns[i]);
      assert g.nodes[..base] == before[..base] == old(g.nodes);
      assert g.nodes[base + i] == old(g.nodes)[ns[i]];
      assert ns[..i + 1][..i] == ns[..i] && ns[..i + 1][i] == ns[i];
      assert FreshTable(ns[..i + 1], base) == FreshTable(ns[..i], base)[ns[i] := base + i];
      t := t[ns[i] := d];
      i := i + 1;
    }
    assert ns[..|ns|] == ns;
  }

  /** Suffixes the name of every copy that is a value of the table. */
  method SuffixNames(g: Graph, ns: seq<Handle>, t: Trans, base: nat, suffix: string)
    requires |g.nodes| == base + |ns| && t.Keys == set h | h in ns
    modifies g
    ensures |g.nodes| == |old(g.nodes)| && g.nodes[..base] == old(g.nodes)[..base]
    ensures forall j :: 0 <= j < |ns| ==>
              g.nodes[base + j] ==
                (if t[ns[j]] == base + j then old(g.nodes)[base + j].(name := Suffixed(old(g.nodes)[base + j].name, suffix))
                 else old(g.nodes)[base + j])
  {
    var i := 0;
    while i < |ns|
      invariant i <= |ns|
      invariant |g.nodes| == base + |ns| && g.nodes[..base] == old(g.nodes)[..base]
      invariant forall j :: 0 <= j < |ns| ==>
                  g.nodes[base + j] ==
                    (if j < i && t[ns[j]] == base + j then old(g.nodes)[base + j].(name := Suffixed(old(g.nodes)[base + j].name, suffix))
                     else old(g.nodes)[base + j])
    {
      assert ns[i] in t;
      if t[ns[i]] == base + i && g.nodes[base + i].name.Some? {
        g.SetName(base + i, Some(g.nodes[base + i].name.value + suffix));
      }
      i := i + 1;
    }
  }

  /** Translates every copy that is a value of the table through the table. */
  method TranslateCopies(g: Graph, ns: seq<Handle>, t: Trans, base: nat)
    requires |g.nodes| == base + |ns| && t.Keys == set h | h in ns
    modifies g
    ensures |g.nodes| == |old(g.nodes)| && g.nodes[..base] == old(g.nodes)[..base]
    ensures forall j :: 0 <= j < |ns| ==>
              g.nodes[base + j] ==
                (if t[ns[j]] == base + j then old(g.nodes)[base + j].(kind := Translated(old(g.nodes)[base + j].kind, t))
                 else old(g.nodes)[base + j])
  {
    var i := 0;
    while i < |ns|
      invariant i <= |ns|
      invariant |g.nodes| == base + |ns| && g.nodes[..base] == old(g.nodes)[..base]
      invariant forall j :: 0 <= j < |ns| ==>
                  g.nodes[base + j] ==
                    (if j < i && t[ns[j]] == base + j then old(g.nodes)[base + j].(kind := Translated(old(g.nodes)[base + j].kind, t))
                     else old(g.nodes)[base + j])
    {
      assert ns[i] in t;
      if t[ns[i]] == base + i {
        g.Translate(base + i, t);
      }
      i := i + 1;
    }
  }

  // ---------------------------------------------------------------------------
  // ViewNetwork

  /** `ViewNetwork`: its `layers` field is rebound and updated in place by the transformations. */
  class Network {
    var layers: Layers

    /**
      * The constructor stores the layers. Its sanity assertion is not run here: `Sane` states
      * it, and the code that builds a network proves it (`Nnet.ImportSane`, `Ipq.BuildSane`,
      * the `ok` result of `Duplicate`).
      */
    constructor (layers: Layers)
      ensures this.layers == layers
    {
      this.layers := layers;
    }

    /** `nodes()`: the chains' nodes layer by layer; a handle is listed exactly when it stands at some position. */
    function Nodes(): (r: seq<Handle>)
      reads this
      ensures forall h :: h in r <==> h in NodeSet(layers)
    {
      FlattenMembersAll(layers);
      Flatten(layers)
    }

    function LayerCount(): (n: nat)
      reads this
      ensures n == |layers|
    {
      |layers|
    }

    /** `layer(layerId)`: the layer, or `BadArgument` where `0 <= layerId < layerCount()` fails. */
    function Layer(layerId: int): (r: Result<Layer, Fault>)
      reads this
      ensures r.Ok? <==> 0 <= layerId < |layers|
      ensures r.Ok? ==> r.value == layers[layerId]
      ensures r.Fail? ==> r.error == BadArgument
    {
      if 0 <= layerId < |layers| then Ok(layers[layerId]) else Fail(BadArgument)
    }

    /**
      * `layerSize(layer)`: `len(self.layers[layer])`, with Python's indexing, so a negative
      * index counts from the end; outside the list it is an `IndexError`.
      */
    function LayerSize(layer: int): (r: Result<nat, Fault>)
      reads this
      ensures r.Ok? <==> -|layers| <= layer < |layers|
      ensures r.Ok? && layer >= 0 ==> r.value == |layers[layer]|
      ensures r.Ok? && layer < 0 ==> r.value == |layers[|layers| + layer]|
      ensures r.Fail? ==> r.error == IndexOutOfRange
    {
      if 0 <= layer < |layers| then Ok(|layers[layer]|)
      else if -|layers| <= layer < 0 then Ok(|layers[|layers| + layer]|)
      else Fail(IndexOutOfRange)
    }

    /** `sanity`: its three loops pass. */
    predicate Sane(g: Graph)
      reads this, g
      ensures Sane(g) <==> SaneAtEveryPosition(layers, g.nodes)
    {
      SaneMeaning(layers, g.nodes);
      SaneIn(layers, g.nodes)
    }

    /**
      * `duplicate(suffix)`: copies every node, suffixes the names that are set, translates
      * every copy through the old-to-new table and builds the network of copies. `ok` is
      * the result of the new network's sanity assertion.
      */
    method Duplicate(g: Graph, suffix: string) returns (dup: Network, ok: bool)
      requires InArena(layers, |g.nodes|)
      modifies g
      ensures fresh(dup)
      ensures g.nodes == DuplicateArena(old(g.nodes), layers, suffix)
      ensures dup.layers == MapLayers(layers, DupTable(layers, |old(g.nodes)|))
      ensures ok == dup.Sane(g)
      ensures old(Sane(g)) ==> ok
    {
      var ns: seq<Handle> := Nodes();
      var base := |g.nodes|;
      ghost var A := g.nodes;
      FlattenMembersAll(layers);
      forall j | 0 <= j < |ns| ensures ns[j] < |A| {
        assert ns[j] in Flatten(layers);
      }
      var t := CopyNodes(g, ns);
      ghost var A1 := g.nodes;
      SuffixNames(g, ns, t, base, suffix);
      ghost var A2 := g.nodes;
      TranslateCopies(g, ns, t, base);
      assert g.nodes[..base] == A by {
        assert A2[..base] == A1[..base] == A;
      }
      forall j | 0 <= j < |ns|
        ensures g.nodes[base + j] ==
                  (if t[ns[j]] == base + j then Duplicated(A[ns[j]], t, suffix) else A[ns[j]])
      {
        assert A1[base + j] == A[ns[j]];
      }
      DuplicateArenaPointwise(A, layers, suffix, g.nodes);
      assert t == DupTable(layers, base);
      dup := new Network(MapLayers(layers, t));
      ok := SaneIn(dup.layers, g.nodes);
      if SaneIn(layers, A) {
        DuplicateSane(A, layers, suffix);
        assert ok;
      }
    }

    /**
      * `toViewIO`: all nodes; the first node of each layer-0 chain as inputs; the last node
      * of each last-layer chain as outputs; no equations. An empty network, or an empty
      * chain in the first or the last layer, is the source's `IndexError`.
      */
    function ToViewIO(): (r: Result<ViewIO, Fault>)
      reads this
      ensures r.Fail? <==> |layers| == 0 || HasEmptyChain(layers[0]) || HasEmptyChain(layers[|layers| - 1])
      ensures r.Fail? ==> r.error == IndexOutOfRange
      ensures r.Ok? ==> r.value.nodes == Nodes() && r.value.equations == []
      ensures r.Ok? ==> |r.value.inputs| == |layers[0]| && |r.value.outputs| == |layers[|layers| - 1]|
      ensures r.Ok? ==> forall c :: 0 <= c < |layers[0]| ==> r.value.inputs[c] == layers[0][c][0]
      ensures r.Ok? ==> forall c :: 0 <= c < |layers[|layers| - 1]| ==>
                r.value.outputs[c] == layers[|layers| - 1][c][|layers[|layers| - 1][c]| - 1]
      ensures r.Ok? ==> IOSane(r.value)
    {
      if |layers| == 0 || HasEmptyChain(layers[0]) || HasEmptyChain(layers[|layers| - 1]) then
        Fail(IndexOutOfRange)
      else
        HeadsAndOutputsInside(layers);
        Ok(ViewIO(Flatten(layers), FirstNodes(layers[0]), Outputs(layers[|layers| - 1]), []))
    }
  }
}
