# redy in Dafny

A model of the core of *redy*, a small graph representation of feed-forward ReLU networks
written in Python, together with proofs about the model.

The model covers these parts:

- **The IR** (`nodes.dfy`, `equations.dfy`, `views.dfy`).
  - Nodes are plain, weighted-sum, ReLU or absolute-value nodes, each with a bound interval.
  - Python nodes are objects compared by identity. Here they live in an arena, the class
    `Nodes.Graph`, and a node is its index in the arena. Creating a node appends to the arena.
  - `Views.Network` (ViewNetwork) is a list of layers, each a list of neuron chains.
  - `Views.ViewIO` holds nodes, inputs, outputs and equations.
- **The transformations.**
  - Clipping a layer range (`clip.dfy`).
  - Replacing a neuron by `active`, `inactive` or `nofunc` (`amend.dfy`).
  - Splicing an original and a modified copy and emitting the comparison equations (`compare.dfy`).
  - The `RedundancyTest` driver (`redundancy.dfy`, with meaning lemmas in `redundancy_facts.dfy`).
- **Lowering and the reference evaluator** (`export_evaluate.dfy`, meaning lemmas in
  `export_evaluate_facts.dfy`).
  - The view becomes flat variables, EQ records and ReLU relations.
  - A fixed-point propagation assigns values, and a validator checks them.
- **Reachability from the inputs** and the input-list bookkeeping of the Marabou exporter
  (`export_marabou.dfy`).
- **The two importers.**
  - `import_nnet.dfy`: the `.nnet` line reader and the dense layer builder.
  - `import_ipq.dfy`: the `.ipq` query parser and the reconstruction of alternating sum/ReLU
    layers; `ipq_facts.dfy` holds what the reconstructed layers compute.
  - `text.dfy` holds the subset of Python's `int()`/`float()` token syntax both importers use.
- **Input subdivision**, `apply_subspace` (`subspace.dfy`).

Numbers are `real`. The Python assertions and exceptions become failure results: an `Outcome`,
or a `Result` whose `Fault` names the kind of failure (`wrappers.dfy`). Every operation of the
source that changes objects in place is a method of a class, or a method on `Graph`, whose
postcondition ties the new state to a specification function. The lemmas are stated about
those functions.

## Model

| member | source | states |
|---|---|---|
| Nodes.Narrow | src/redy/framework/nodes.py:17-21 | the new interval is the intersection of the old and the proposed ones; a missing argument leaves its end alone; an unknown end adopts the proposed value; otherwise the tighter end wins, so the interval never widens |
| Nodes.NarrowAllIsIntersection | src/redy/framework/nodes.py:17-21 | any sequence of `updateLimit` calls leaves exactly the intersection of all the intervals applied |
| Nodes.NarrowCommutes | src/redy/framework/nodes.py:17-21 | two `updateLimit` calls give the same interval in either order |
| Nodes.NarrowIdempotent | src/redy/framework/nodes.py:17-21 | repeating an `updateLimit` call changes nothing |
| Nodes.Graph.UpdateLimit | src/redy/framework/nodes.py:17-24 | stores the narrowed interval on that node only; the assertion fails exactly when both ends were given and the stored interval is empty; a one-sided call never fails |
| Nodes.Graph.Add | src/redy/framework/nodes.py:10-12 | a new node is appended to the arena, at a handle no existing node has |
| Nodes.CopiedFrom | src/redy/framework/nodes.py:30-32 | `copyFrom` copies limit and name; it keeps the target's class and copies the payload fields that class has |
| Nodes.Graph.CopyFrom | src/redy/framework/nodes.py:51-54 | `dst.copyFrom(src)` changes node `dst` only, as `CopiedFrom` says |
| Nodes.Graph.DuplicateNode | src/redy/framework/nodes.py:26-29 | `duplicate` appends a node equal to the source (same class, limit, name and payload), at a new handle, with the same references |
| Nodes.TermNodes | src/redy/framework/nodes.py:59-60 | `connectedTo` of a sum lists its input nodes, in order, one per term |
| Nodes.ConnectedTo | src/redy/framework/nodes.py:37-100 | `connectedTo` of each node class: an input reads nothing, a sum the node of each term in order, a ReLU or an absolute value its one input |
| Nodes.MapTerms | src/redy/framework/nodes.py:56-57 | the translated terms keep coefficients, order and length; each node is passed through the substitution |
| Nodes.MapHandles | src/redy/framework/nodes.py:77-78 | each reference is passed through the substitution, in order; unmapped handles stay |
| Nodes.TranslatedShape | src/redy/framework/nodes.py:34-35 | `translate` leaves a plain node alone, keeps a sum's scalar and coefficients, replaces the single input of a ReLU or Abs node, and the new references are the images of the old ones |
| Nodes.TranslatedFixes | src/redy/framework/nodes.py:56-57 | a substitution fixing every reference of a node leaves the node unchanged |
| Nodes.TranslatedTwice | src/redy/framework/nodes.py:96-97 | translating twice is translating once by the composed substitution |
| Nodes.TranslatedIdempotent | src/redy/framework/nodes.py:77-78 | a substitution whose images are not themselves substituted does all its work in one pass |
| Nodes.Graph.Translate | src/redy/framework/nodes.py:56-57 | `translate` rewrites the references of that node only, keeping its limit and name |
| Nodes.Graph.SetName | src/redy/framework/nodes.py:12 | assigning the name changes that node's name and nothing else |
| Equations.LhsPair | src/redy/framework/equations.py:13-17 | the left-hand side of a two-term equation is `a*x(m) + b*x(n)` |
| Equations.Equation.Duplicate | src/redy/framework/equations.py:19-21 | `duplicate` gives a new object with equal terms, comparator and scalar, so translating it cannot touch the original |
| Equations.Equation.constructor | src/redy/framework/equations.py:13-17 | a new equation holds exactly the given terms, comparator and scalar |
| Equations.Equation.Translate | src/redy/framework/equations.py:23-24 | each term's node is passed through the substitution; coefficient, position and term count are kept; comparator and scalar are constant |
| Views.LayeredIsSane | src/redy/framework/views.py:24-29 | a feed-forward network, in which each node reads only its chain predecessor or the last nodes of the layer before, passes `sanity` |
| Views.SaneMeaning | src/redy/framework/views.py:24-29 | the sanity of the node set is exactly the three loops' check: the node at every position exists and every node it reads is a node of the network |
| Views.Outputs | src/redy/framework/views.py:55-56 | `[ns[-1] for ns in layer]`: one output per chain, the chain's last node |
| Views.AppendChainLayered | src/redy/framework/views.py:24-29 | appending a chain of fresh nodes that read only what their position allows keeps a network feed-forward |
| Views.AppendChainDistinct | src/redy/framework/views.py:41-42 | appending a chain of distinct fresh nodes keeps every node at one position |
| Views.FlattenAt | src/redy/framework/views.py:41-42 | `nodes()` is layer-major, then chain-major: the node at (l, c, k) stands at the index given by the sizes before it, and the list is as long as all chains together |
| Views.FlattenLength | src/redy/framework/views.py:41-42 | the length of `nodes()` is the sum of all chain lengths |
| Views.FlattenMembers | src/redy/framework/views.py:41-42 | `set(nodes())` is the set of nodes at the positions of the network |
| Views.MapLayers | src/redy/framework/views.py:51 | `[[[trans(n) for n in ns] for ns in l] for l in layers]` keeps the shape and maps each handle |
| Views.FreshTableAt | src/redy/framework/views.py:45 | in `{n: n.duplicate() for n in nodes()}` each node's copy is one made for one of its occurrences, so different nodes get different copies |
| Views.DuplicateCopies | src/redy/framework/views.py:44-53 | each node's copy lies past the old arena, so it is none of the source nodes; it has the source's class, limit and payload, its references passed through the table and its name suffixed |
| Views.DuplicateInjective | src/redy/framework/views.py:45 | two different source nodes get two different copies |
| Views.DuplicateShape | src/redy/framework/views.py:51 | the duplicate has the same number of layers, chains per layer and chain lengths, and none of its nodes is a source node |
| Views.DuplicateRefsAt | src/redy/framework/views.py:49-50 | the copy at a position reads the images of its source's references |
| Views.DuplicateSane | src/redy/framework/views.py:44-53 | the duplicate of a sane network is sane |
| Views.DuplicateLayered | src/redy/framework/views.py:44-53 | the duplicate of a feed-forward network is feed-forward |
| Views.DuplicateDistinct | src/redy/framework/views.py:45 | the duplicate of a network without repeated nodes has none |
| Views.CopyNodes | src/redy/framework/views.py:45 | the loop making the copies appends one copy per listed node and builds the table `FreshTable` |
| Views.SuffixNames | src/redy/framework/views.py:46-47 | the suffix is appended only to names that are set, on the copies the table keeps |
| Views.TranslateCopies | src/redy/framework/views.py:49 | every copy the table keeps is translated through the table; nothing else changes |
| Views.Network.constructor | src/redy/framework/views.py:20-22 | stores the layers; it does not run `sanity`, which is `Sane` and is proved by the builders instead (`Nnet.ImportSane`, `Ipq.BuildSane`, the `ok` result of `Views.Network.Duplicate`) |
| Views.Network.Sane | src/redy/framework/views.py:24-29 | `sanity` passes exactly when, at every position, the node exists and every node it reads is a node of the network |
| Views.Network.Layer | src/redy/framework/views.py:31-33 | the layer `layerId` when `0 <= layerId < layerCount()`, and otherwise the failed assertion as `BadArgument` |
| Views.Network.LayerCount | src/redy/framework/views.py:35-36 | the number of layers |
| Views.Network.LayerSize | src/redy/framework/views.py:38-39 | the number of chains of the layer, a negative index counting from the end as Python's does, and `IndexOutOfRange` outside the list |
| Views.Network.Nodes | src/redy/framework/views.py:41-42 | `nodes()` lists exactly the handles that stand at some position of the network |
| Views.Network.Duplicate | src/redy/framework/views.py:44-53 | `duplicate` grows the arena to `DuplicateArena` and returns a new network on `MapLayers`; its sanity assertion passes whenever the source network was sane |
| Views.Network.ToViewIO | src/redy/framework/views.py:55-56 | fails with `IndexOutOfRange` exactly when the network has no layer or an empty chain in its first or last layer (the source's `IndexError`); otherwise inputs are the first nodes of the layer-0 chains, outputs the last nodes of the last layer's chains, no equations, and the `ViewIO` sanity holds |
| Clip.Window | src/redy/features/clip.py:14-18 | `layers[firstLayer:lastLayer+1]`, with `lastLayer` defaulting to `layerCount-1`; it is empty exactly when the range selects no layer |
| Clip.Drop | src/redy/features/clip.py:26 | `n[firstMode+1:]` as a Python slice, clamped at the end of the chain |
| Clip.Take | src/redy/features/clip.py:27 | `n[:lastMode+1]` as a Python slice, clamped at the end of the chain |
| Clip.Boundaries | src/redy/features/clip.py:19 | the boundary of each first-layer chain is its node at `firstMode` |
| Clip.ClipLayers | src/redy/features/clip.py:18-30 | the clipped network has as many layers as the window, and each layer as many chains as before |
| Clip.ClipAt | src/redy/features/clip.py:26-30 | each first-layer chain is the fresh input followed by the chain after the boundary; every other position comes from the same position of the kept layers |
| Clip.ClipFirstLast | src/redy/features/clip.py:26-30 | the last node of a clipped first-layer chain is the chain's old last node, or its fresh input when the boundary was the chain's last node |
| Clip.ClipArenaLength | src/redy/features/clip.py:22 | clipping adds one fresh node per boundary |
| Clip.ClipArenaAt | src/redy/features/clip.py:22-35 | the added nodes are plain; every node of the old network is translated through the input table; other nodes are untouched |
| Clip.ClipInputNode | src/redy/features/clip.py:22-29 | each input of the clipped network is a new plain node with the boundary's limit and name: the "_bdr" suffix of line 25 is overwritten by the second `copyFrom` on line 29 |
| Clip.NotBoundary | src/redy/features/clip.py:32-35 | in a network without repeated nodes, the translation redirects only the boundary nodes |
| Clip.ClipLayered | src/redy/features/clip.py:39 | clipping a feed-forward network without repeated nodes gives a feed-forward network, so the final sanity assertion holds |
| Clip.CollectBoundaries | src/redy/features/clip.py:19 | gathers the node at `firstMode` of each chain, and fails with an index error exactly when some chain is too short |
| Clip.AddInputs | src/redy/features/clip.py:22 | appends one fresh plain node per boundary; the table keeps the one made last for a repeated boundary |
| Clip.NameInputs | src/redy/features/clip.py:23-25 | each kept input takes its boundary's limit and its name with "_bdr" appended, when the name is set |
| Clip.RecopyInputs | src/redy/features/clip.py:29 | each kept input copies its boundary's limit and name once more |
| Clip.ClipInputs | src/redy/features/clip.py:23-29 | the two passes together leave each kept input as `InputNode` |
| Clip.TranslateAll | src/redy/features/clip.py:35 | every node of the unclipped network is translated through the input table; no other node changes |
| Clip.ClipNetwork | src/redy/features/clip.py:13-41 | fails with an index error, changing nothing, where the source raises IndexError; otherwise installs `ClipLayers`, grows the arena to `ClipArena`, and reports a sanity failure exactly when the clipped network is not sane |
| Amend.Retarget | src/redy/features/amend.py:30-32 | `modify`'s local `translate` maps the old last node to the new one and every other node to itself |
| Nodes.TranslateAt | src/redy/features/amend.py:34-35 | translating a set of nodes rewrites exactly those nodes' references and leaves the rest of the arena alone |
| Amend.StepTrans | src/redy/features/amend.py:30-32 | the retargeting of one override never maps a node onto one it also rewrites |
| Amend.StepArena | src/redy/features/amend.py:15-27 | "active" adds no node; "inactive" and "nofunc" add exactly one |
| Amend.ModifyStep | src/redy/features/amend.py:13-35 | one override fails exactly when the source stops on it (an index outside the network, an unknown kind, a chain too short, an empty chain in the next layer), with the matching fault; on success the arena only grows |
| Amend.ReplaceChainInArena | src/redy/features/amend.py:28 | writing a chain of existing nodes into `net.layers[li][ni]` keeps the network inside the arena |
| Amend.ModifyAll | src/redy/features/amend.py:13-35 | the overrides run in order and the loop stops at the first failure; on success the arena only grows |
| Amend.ReplaceNeuron | src/redy/features/amend.py:14-27 | builds the replacement chain `NewChain` and grows the arena to `StepArena`, with the new node and the new last node's name |
| Amend.RetargetHeads | src/redy/features/amend.py:33-35 | translates the first node of every chain of the next layer, once each; an empty chain there stops it with an index error |
| Amend.ModifyNeuron | src/redy/features/amend.py:13-35 | one iteration of the loop leaves the network and the arena that `ModifyStep` gives, or its fault; a fault met before any change changes nothing |
| Amend.Modify | src/redy/features/amend.py:12-40 | on success the network and arena are those of `ModifyAll`; the outcome fails exactly when an override fails or the final sanity assertion does |
| Amend.ModifyStepKinds | src/redy/features/amend.py:28-35 | after an override only the heads of the next layer's chains change references, and the added node is plain |
| Amend.ModifyStepNeuron | src/redy/features/amend.py:14-27 | the new chain keeps the first node; "active" keeps only it; "inactive" ends in a new node fixed to [0, 0]; "nofunc" ends in a new node with the old second node's limit and name; the new last node is named after the old last node with "_" and the kind appended, when that name is set |
| Amend.RetargetedLast | src/redy/features/amend.py:30-35 | a last node of the overridden layer, retargeted, is a last node of the new layer |
| Amend.DistinctUnsharedStep | src/redy/features/amend.py:30-35 | in a network without repeated nodes the retargeting touches only the heads of the next layer |
| Amend.ModifyLayeredAt | src/redy/features/amend.py:28-35 | every position after an override reads only what a feed-forward network allows |
| Amend.ModifyDistinct | src/redy/features/amend.py:18-24 | the added node is new to the network, so no node stands at two positions afterwards |
| Amend.ModifyLayered | src/redy/features/amend.py:13-35 | one override keeps a feed-forward network without repeated nodes so |
| Amend.ModifyAllLayered | src/redy/features/amend.py:37-38 | when every override applies to a feed-forward network without repeated nodes, the result is one too, so `modify`'s sanity assertion holds |
| Compare.MinLayer | src/redy/features/amend.py:44 | the join layer is the layer of some overridden neuron and no overridden neuron lies below it |
| Compare.JoinedCopy | src/redy/features/amend.py:52-55 | the copy keeps its number of layers and the size of its join layer; only overridden chains there change their first node |
| Compare.Kept | src/redy/features/amend.py:56 | the chains kept in the join layer are chains of that layer |
| Compare.KeptMembers | src/redy/features/amend.py:56 | the kept chains are exactly the chains of overridden neurons, in order |
| Compare.JoinDup | src/redy/features/amend.py:46-59 | `_join` returns the copy from the join layer on |
| Compare.TranslateSeq | src/redy/features/amend.py:57 | translating listed nodes one by one keeps the arena's size |
| Compare.JoinArena | src/redy/features/amend.py:57 | `_join`'s translation keeps the arena's size |
| Compare.JoinedCopyInArena | src/redy/features/amend.py:55 | splicing the original's first nodes into the copy keeps it inside the arena |
| Compare.PairJoinLayer | src/redy/features/amend.py:47-55 | the table loop fails with an index error exactly when a neuron of the join layer has no partner to read; otherwise it builds `JoinTable` and leaves the copy as `JoinedCopy` |
| Compare.KeepOverridden | src/redy/features/amend.py:56 | the comprehension computes `Kept` |
| Compare.TranslateEach | src/redy/features/amend.py:57 | every listed node is translated in order, a repeated one repeatedly |
| Compare.JoinNetworks | src/redy/features/amend.py:42-59 | `_join` fails exactly where the source stops (no neurons, a join layer outside a network, a chain it cannot pair) with the matching fault; otherwise it leaves the copy, the arena and the result that the specification functions give |
| Compare.JoinTableUpToAt | src/redy/features/amend.py:47-54 | with distinct keys, the table maps each neuron's key to its partner and has no other key |
| Compare.DistinctKeys | src/redy/features/amend.py:47-54 | in a copy without repeated nodes the keys of the join layer are distinct |
| Compare.JoinTableMeaning | src/redy/features/amend.py:47-54 | an untouched neuron's last node maps to the original neuron's last node, an overridden neuron's first node to the original's first node, and nothing else is mapped |
| Compare.TranslateSeqOnce | src/redy/features/amend.py:57 | when no value of the table is a key, translating in any order and with repetitions is one translation of each node |
| Compare.JoinTableSettles | src/redy/features/amend.py:47-54 | when the original and the copy share no node, keys are copy nodes, values are original nodes, and no value is a key |
| Compare.JoinArenaSettled | src/redy/features/amend.py:57 | so `_join`'s translation loop is one pass over the copy's nodes |
| Compare.OnlyKeysMappedHolds | src/redy/features/amend.py:47-54 | only the keys of the join layer are mapped, each to its partner |
| Compare.DupInCopy | src/redy/features/amend.py:46-56 | every node `_join` returns is a node of the joined copy |
| Compare.RefOrigin | src/redy/features/amend.py:57 | a reference of a translated node is the image of an old reference |
| Compare.OriginalKept | src/redy/features/amend.py:57 | the original's nodes read what they read before `_join` |
| Compare.KeptChainAt | src/redy/features/amend.py:55-56 | each kept chain of the join layer is an overridden neuron's chain starting from the original's first node |
| Compare.DupLater | src/redy/features/amend.py:46 | past the join layer `_join` keeps the copy's layers unchanged |
| Compare.AfterJoinSource | src/redy/features/amend.py:57 | a chain head right after the join layer reads the image of a last node of the join layer |
| Compare.OverriddenLastKept | src/redy/features/amend.py:54-56 | the image of an overridden neuron's last node is among the returned nodes |
| Compare.DupClosed | src/redy/features/amend.py:57 | once the table has settled, the nodes `_join` keeps read only each other and the original's nodes around the join layer |
| Compare.KeepOutputLayered | src/redy/features/amend.py:77-78 | keeping one output of a feed-forward network leaves a feed-forward network on fewer nodes |
| Compare.JoinClosed | src/redy/features/amend.py:105-108 | the nodes `join` collects are closed under references in the arena `_join` leaves |
| Compare.JoinEnds | src/redy/features/amend.py:111-113 | the inputs and outputs of `join` lie among its nodes |
| Compare.JoinSucceeds | src/redy/features/amend.py:100-113 | on well-formed networks `join` passes its checks; its nodes are the original's and the kept copy's, its inputs the first nodes of the original's first layer, its outputs the last nodes of both last layers, with no equations |
| Compare.Firsts | src/redy/features/amend.py:111 | `[ns[0] for ns in layer]` |
| Compare.LastsOf | src/redy/features/amend.py:112 | `[ns[-1] for ns in layer]` |
| Compare.KeepOutput | src/redy/features/amend.py:77-78 | `layers[-1] = layers[-1][output:output+1]`, the other layers unchanged |
| Compare.ExactClosed | src/redy/features/amend.py:87-90 | `compareExact`'s nodes are closed under references |
| Compare.ExactEnds | src/redy/features/amend.py:79-94 | `compareExact`'s inputs, outputs and single equation lie among its nodes |
| Compare.ExactSucceeds | src/redy/features/amend.py:68-94 | on well-formed networks with that output in both, `compareExact` passes its checks and returns the two outputs under one equation |
| Compare.ExactEquation | src/redy/features/amend.py:79-84 | the equation holds exactly when, with "gt", the original's output exceeds the copy's by at least `epsilon`, and with "lt" the copy's exceeds the original's by at least `epsilon` |
| Compare.WinnerConstraints | src/redy/features/amend.py:135-142 | one equation per original output other than `output` |
| Compare.WinnerConstraintsHold | src/redy/features/amend.py:135-142 | those equations hold exactly when `output` is at least `epsilon` below every other output of the original: the smallest output wins |
| Compare.WinnerTermsAreOutputs | src/redy/features/amend.py:135-142 | every node the winner equations mention is an output of the original |
| Compare.MinimumEquations | src/redy/features/amend.py:126-162 | the equations hold exactly when `output` wins the original by `epsilon` and the copy's `output` exceeds its `counteroutput` by at least `epsilon`; the outputs are the original's, then those two of the copy |
| Compare.MinimumEnds | src/redy/features/amend.py:144-162 | `compareMinimum`'s inputs, outputs and equations lie among its nodes |
| Compare.MinimumSucceeds | src/redy/features/amend.py:126-162 | on well-formed networks with two different outputs, `compareMinimum` passes its checks with one equation per output of the original |
| Compare.AllHoldAppend | src/redy/features/amend.py:139-148 | appending an equation to the list adds it to what must hold |
| Compare.Enumerate | src/redy/features/amend.py:87-89 | a set's members listed once each |
| Compare.CheckClosed | src/redy/features/amend.py:90 | the sanity loop passes exactly when every collected node's references are collected |
| Compare.MakeEquations | src/redy/features/amend.py:80-83 | new equation objects with the given terms, comparators and scalars |
| Compare.FinishView | src/redy/features/amend.py:92-94 | builds the `ViewIO` the specification describes, or fails as it does |
| Compare.Join | src/redy/features/amend.py:100-113 | `join` returns a view carrying `JoinQuery`, or its fault, and leaves the copy and arena as `_join` does |
| Compare.CompareExact | src/redy/features/amend.py:68-94 | `compareExact` returns a view carrying `ExactQuery`, or its fault; on success both last layers are cut down to `output` |
| Compare.ExactFinish | src/redy/features/amend.py:74-94 | the part after `_join`: the output checks, the cut, the equation and the view |
| Compare.WinnerEquations | src/redy/features/amend.py:135-142 | the loop builds `WinnerConstraints` |
| Compare.CompareMinimum | src/redy/features/amend.py:126-162 | `compareMinimum` returns a view carrying `MinimumQuery`, or its fault; on success the copy's last layer keeps `output` and `counteroutput`, in that order |
| Compare.MinimumFinish | src/redy/features/amend.py:130-162 | the part after `_join`: the output checks, the equation loop, the cut of the copy to `output` and `counteroutput`, and the view, as `MinimumAfterJoin` describes |
| Redundancy.DupClip | src/redy/features/redundancy.py:16-25 | a successful `duplicateAndClip` grows the arena, keeps the network well formed, and has `lastLayer - firstLayer + 1` layers within a range that fits |
| Redundancy.Resolved | src/redy/features/redundancy.py:28-29 | a missing last layer becomes the network's last layer |
| Redundancy.Slots | src/redy/features/redundancy.py:35 | the neuron keys of the rebased overrides, one per override, in order |
| Redundancy.Probe | src/redy/features/redundancy.py:106-121 | the probe node and the inputs of the state check lie inside the clipped network |
| Redundancy.RedundancyTest.DuplicateAndClip | src/redy/features/redundancy.py:16-25 | returns a new network carrying `DupClip`, or its fault, and never changes the network under test |
| Redundancy.RedundancyTest.PrepNetworks | src/redy/features/redundancy.py:27-37 | `_prep` returns two distinct new networks and the rebased overrides that `Prep` describes, or its fault |
| Redundancy.RedundancyTest.GetComparedExact | src/redy/features/redundancy.py:54-58 | returns a view carrying `ComparedExact`, or its fault |
| Redundancy.RedundancyTest.GetComparedMinimum | src/redy/features/redundancy.py:71-76 | returns a view carrying `ComparedMinimum`, whose range assertion runs first, or its fault |
| Redundancy.RedundancyTest.GetJoined | src/redy/features/redundancy.py:85-89 | returns a view carrying `Joined`, or its fault |
| Redundancy.RedundancyTest.GetStateCheck | src/redy/features/redundancy.py:98-124 | returns the view and the clipped network that `StateCheckQuery` describes, or its fault |
| Redundancy.ProbeView | src/redy/features/redundancy.py:106-121 | cuts the clipped network's last layer to the neuron and builds the view of `Probe` |
| RedundancyFacts.ClipFailsShape | src/redy/features/clip.py:18-19 | whether clipping fails depends only on the network's shape, so it fails on the duplicate exactly when on the original |
| RedundancyFacts.DupClipOutcome | src/redy/features/redundancy.py:16-25 | on a feed-forward network without repeated nodes `duplicateAndClip` fails exactly when the range assertion fails (a bad argument) or the window cannot be cut, and its result is feed-forward |
| RedundancyFacts.DupClipKeepsArena | src/redy/features/redundancy.py:17-23 | `duplicateAndClip` leaves every node that existed before the call unchanged, so `self.network` is untouched |
| RedundancyFacts.UpsertDict | src/redy/features/redundancy.py:35 | storing a dict entry keeps keys unique and changes the dict at that key only |
| RedundancyFacts.RebasedDict | src/redy/features/redundancy.py:35 | the rebased overrides are the dict `{(l - firstLayer, n): f}`, with unique keys and the last claim on a neuron winning |
| RedundancyFacts.NonStrictRefutes | src/redy/features/redundancy.py:111-112 | a solution of the non-strict query refutes the claimed phase, so a non-strict "not redundant" answer is never wrong: no false negatives |
| RedundancyFacts.StrictCatches | src/redy/features/redundancy.py:113-114 | every assignment refuting the claim solves the strict query, so a strict "redundant" answer (no solution) is never wrong: no false positives |
| RedundancyFacts.StrictWeakens | src/redy/features/redundancy.py:111-114 | every solution of the non-strict query solves the strict one |
| RedundancyFacts.ProbeSucceeds | src/redy/features/redundancy.py:106-121 | after a clip that leaves a one-node probe chain, the state check keeps the layers, ends in `[[vb]]`, has one input per first-layer chain and the single equation `1*vb (cmp) eps'` |
| RedundancyFacts.ProbeClipShape | src/redy/features/redundancy.py:102-108 | the copy `getStateCheck` clips has the neuron's layer as its last, inputs everywhere and a one-node chain at the neuron |
| RedundancyFacts.StateCheckSucceeds | src/redy/features/redundancy.py:98-121 | on a feed-forward network without repeated nodes, `getStateCheck` of a neuron past the first kept layer succeeds with the probe as its only output and the phase equation on it |
| Evaluate.IndexOf | src/redy/convert/export_evaluate.py:18 | `nl.index(h)` is the first position holding `h`, and is missing exactly when `h` is not in the list |
| Evaluate.Vars | src/redy/convert/export_evaluate.py:20-21 | the input (output) variables are the positions of the input (output) nodes, one per node; a node outside the view fails with IndexOutOfRange |
| Evaluate.Terms | src/redy/convert/export_evaluate.py:31-32 | a term list lowers exactly when every node it names is in the view, keeping each coefficient with the position of its node |
| Evaluate.LowerTerms | src/redy/convert/export_evaluate.py:48-50 | the term loop computes `Terms` |
| Evaluate.Store | src/redy/convert/export_evaluate.py:26-27 | `d[k] = x` makes `k` look up `x`, leaves every other key as it was, and adds at most one item |
| Evaluate.TranslateTables | src/redy/convert/export_evaluate.py:53-55 | the `translate` loop fills the node-to-variable and the variable-to-node tables |
| Evaluate.TranslateStep | src/redy/convert/export_evaluate.py:54-55 | one step of the `translate` loop keeps both tables right for the nodes seen so far |
| Evaluate.ToVarStep | src/redy/convert/export_evaluate.py:54 | after a step, the nodes seen are exactly the keys and each maps to its first position |
| Evaluate.ToNodeStep | src/redy/convert/export_evaluate.py:55 | after a step, the keys are the first positions seen so far and each maps back to its node |
| Evaluate.TablesAre | src/redy/convert/export_evaluate.py:53-55 | after the loop the two tables are the whole numbering and its inverse |
| Evaluate.FirstPosition | src/redy/convert/export_evaluate.py:18 | the first position of `nl[k]` is at most `k`, and is `k` exactly when `nl[k]` does not occur before |
| Evaluate.EquationValues | src/redy/convert/export_evaluate.py:47 | the view's equations read as values, one per equation, in order |
| Evaluate.ExportEvaluate | src/redy/convert/export_evaluate.py:13-57 | `export_evaluate` returns a new evaluator whose tables are `Lowering` of the view, or `Lowering`'s fault |
| Evaluate.Unknowns | src/redy/convert/export_evaluate.py:99 | the terms whose variables have no value, and there are none exactly when all have values |
| Evaluate.Evaluator.constructor | src/redy/convert/export_evaluate.py:60-71 | every table starts empty and `numVars` at 0 |
| Evaluate.Evaluator.AddNode | src/redy/convert/export_evaluate.py:24-40 | the loop body for one node leaves the tables `NodeStep` computes, or fails as it does |
| Evaluate.Evaluator.AddNodes | src/redy/convert/export_evaluate.py:23-40 | the node loop leaves the tables `LowerNodes` computes, or fails as it does |
| Evaluate.Evaluator.AddEquations | src/redy/convert/export_evaluate.py:47-51 | the equation loop leaves the tables `LowerEquations` computes, or fails as it does |
| Evaluate.Evaluator.FillTranslate | src/redy/convert/export_evaluate.py:53-55 | stores the two `translate` tables and changes no other field |
| Evaluate.Evaluator.SeedInputs | src/redy/convert/export_evaluate.py:84-85 | the input loop gives each input variable its input value, the last one winning |
| Evaluate.Evaluator.SeedFixed | src/redy/convert/export_evaluate.py:88-91 | the fixed-variable loop adds each variable whose two bounds agree, with that value |
| Evaluate.Evaluator.Grows | src/redy/convert/export_evaluate.py:97-112 | one firing with a rule that fixes its variable keeps the derivation justified |
| Evaluate.Evaluator.BackSubstitution | src/redy/convert/export_evaluate.py:99-103 | back-substitution on an EQ record with one unknown makes the record hold exactly and assigns a variable that had no value |
| Evaluate.Evaluator.Rectification | src/redy/convert/export_evaluate.py:109-110 | a ReLU firing makes its relation hold and assigns a variable that had no value |
| Evaluate.Evaluator.EqFire | src/redy/convert/export_evaluate.py:98-104 | one EQ record either fires, assigning a new variable that it then fixes, or leaves the assignment alone because it is not an EQ record with one unknown; it fails only on a zero coefficient |
| Evaluate.Evaluator.EqPass | src/redy/convert/export_evaluate.py:97-105 | the EQ pass keeps every value, justifies every new one, and fires nothing exactly when no EQ record has one unknown |
| Evaluate.Evaluator.ReluPass | src/redy/convert/export_evaluate.py:107-112 | the ReLU pass fails exactly on a relation that is not a ReLU, and otherwise fires nothing only when no relation has a known input and an unknown output |
| Evaluate.Evaluator.ReluFire | src/redy/convert/export_evaluate.py:107-112 | one relation fails when it is not a ReLU, fires when its input is known and its output is not (assigning a new variable), and otherwise leaves the assignment alone |
| Evaluate.Evaluator.Propagate | src/redy/convert/export_evaluate.py:94-114 | the fixed-point loop ends; it keeps every seeded value, assigns only values some record or relation forces, and stops where no rule can fire; it fails only on a zero coefficient or a foreign relation |
| Evaluate.Evaluator.ForwardEvaluate | src/redy/convert/export_evaluate.py:78-128 | a wrong input count is rejected; the result is derived from the seed and stuck; validation, when asked, is `Validate`, and is returned or raised as the flags say |
| Evaluate.CheckBounds | src/redy/convert/export_evaluate.py:135-136 | passes exactly when every bounded variable has a value within `EPSILON` of its bound; a missing value raises KeyError |
| Evaluate.Validate | src/redy/convert/export_evaluate.py:130-152 | `validate` passes exactly when the assignment holds `numVars` values and the bounds, the records and the ReLU relations all pass; a wrong count is `ValidationFailure`, and the only other fault is the KeyError of a missing value |
| Evaluate.CheckRecords | src/redy/convert/export_evaluate.py:139-149 | passes exactly when every record's residual meets its type (`abs(res) < EPSILON`, `res >= -EPSILON` or `res <= EPSILON`) |
| Evaluate.CheckRelations | src/redy/convert/export_evaluate.py:152-154 | passes exactly when every relation is a ReLU whose output equals `max(0, input)` |
| Evaluate.SumFrame | src/redy/convert/export_evaluate.py:140 | a weighted sum depends only on the values of its own variables |
| Evaluate.OnlyUnknown | src/redy/convert/export_evaluate.py:99-101 | with one unknown, every other term of the record has a value |
| Evaluate.SumSplit | src/redy/convert/export_evaluate.py:103 | the sum after giving the unknown `x` is the known part plus `nc * x` |
| Evaluate.KnownSum | src/redy/convert/export_evaluate.py:103 | assigning a variable absent from a fully known sum changes nothing |
| Evaluate.ShrinkingRest | src/redy/convert/export_evaluate.py:94-114 | each firing shrinks the set of variables left to assign, so the loop terminates |
| EvaluateFacts.TranslateRoundTrip | src/redy/convert/export_evaluate.py:53-55 | `translate[translate[n]] == n` for every node of the view and for every variable |
| EvaluateFacts.VariablesInRange | src/redy/convert/export_evaluate.py:18-19 | every variable handed out is below `numVars` |
| EvaluateFacts.Positions | src/redy/convert/export_evaluate.py:132 | the positions below `n`, `n` of them |
| EvaluateFacts.DenoteSize | src/redy/convert/export_evaluate.py:132 | the values of the view's nodes give exactly `numVars` variables a value |
| EvaluateFacts.WeightedDenotes | src/redy/convert/export_evaluate.py:31-32 | a lowered term list weighs the node values as the original terms do |
| EvaluateFacts.WeightedAppend | src/redy/convert/export_evaluate.py:33 | the weighted sum of a list with one more term |
| EvaluateFacts.SumRecordMeaning | src/redy/convert/export_evaluate.py:29-34 | the EQ record of a sum node holds exactly when the node's value is the sum of its inputs plus its scalar |
| EvaluateFacts.NodeStepOutcome | src/redy/convert/export_evaluate.py:24-40 | one node lowers exactly when it is not an Abs node and reads only nodes of the view; the failure is the assertion or a ValueError |
| EvaluateFacts.LowerNodesOutcome | src/redy/convert/export_evaluate.py:23-40 | the node loop succeeds exactly when each node lowers |
| EvaluateFacts.LowerEquationsOutcome | src/redy/convert/export_evaluate.py:47-51 | the equation loop succeeds exactly when every term names a node of the view, and appends one record per equation with its comparator code |
| EvaluateFacts.LoweringOutcome | src/redy/convert/export_evaluate.py:13-57 | `export_evaluate` succeeds exactly when everything the view refers to is in it and no node is an Abs node; then there is one variable per position and the inputs and outputs are their nodes' variables |
| EvaluateFacts.StoreItems | src/redy/convert/export_evaluate.py:26-27 | the items after `d[k] = c` are old items or `(k, c)` |
| EvaluateFacts.BoundsStore | src/redy/convert/export_evaluate.py:26-27 | storing a bound the values meet keeps the bound check passing |
| EvaluateFacts.RecordsAppend | src/redy/convert/export_evaluate.py:34 | appending a record that holds keeps the record check passing |
| EvaluateFacts.RelationsAppend | src/redy/convert/export_evaluate.py:36 | appending a relation that holds keeps the relation check passing |
| EvaluateFacts.NodeStepSound | src/redy/convert/export_evaluate.py:24-40 | the tables of one node hold under its value when that value is within the node's limit and agrees with its function |
| EvaluateFacts.LowerNodesSound | src/redy/convert/export_evaluate.py:23-40 | the node loop keeps the tables holding under a consistent assignment |
| EvaluateFacts.EquationRecordSound | src/redy/convert/export_evaluate.py:47-51 | the record of an equation that holds passes its check |
| EvaluateFacts.LowerEquationsSound | src/redy/convert/export_evaluate.py:47-51 | the equation loop keeps the tables holding when the equations hold |
| EvaluateFacts.ValidateSound | src/redy/convert/export_evaluate.py:130-156 | values of the nodes that respect every limit, every node's function and every equation pass `validate`: no false alarm |
| EvaluateFacts.StoreUnique | src/redy/convert/export_evaluate.py:26-27 | `d[k] = c` keeps the keys of a dict unique |
| EvaluateFacts.LookupItems | src/redy/convert/export_evaluate.py:88-90 | with unique keys, `d.get(v)` finds exactly the item of `v` |
| EvaluateFacts.SameVariable | src/redy/convert/export_evaluate.py:18 | two nodes of the view with the same variable are the same node |
| EvaluateFacts.LowerNodesBounds | src/redy/convert/export_evaluate.py:25-27 | the node loop records each node's bounds under its variable and leaves other variables alone |
| EvaluateFacts.LoweringBounds | src/redy/convert/export_evaluate.py:25-27 | the lower (upper) bound of a node's variable is the node's lower (upper) bound, each listed once |
| EvaluateFacts.InputsFromValues | src/redy/convert/export_evaluate.py:84-85 | the input loop gives each input variable the last value given to it and keeps the rest |
| EvaluateFacts.FixedFromValues | src/redy/convert/export_evaluate.py:88-91 | the fixed loop adds exactly the variables with agreeing bounds, with their value |
| EvaluateFacts.SeedMeaning | src/redy/convert/export_evaluate.py:83-91 | the seed assigns exactly the inputs and the fixed variables; fixed values win over inputs |
| EvaluateFacts.SeedOfView | src/redy/convert/export_evaluate.py:83-91 | on an exported view, a node with equal bounds starts with their value and an unfixed input node with the last input given to it |
| Reach.Successors | src/redy/convert/export_marabou.py:39-43 | the nodes of the view, in its order, whose `connectedTo` holds the given node, and no others |
| Reach.NodeNext | src/redy/convert/export_marabou.py:39-43 | `get_node_next`'s loop computes `Successors` |
| Reach.SuccessorsSnoc | src/redy/convert/export_marabou.py:39-43 | one more node of the view is added to the successors exactly when it reads the node |
| Reach.Unreached | src/redy/convert/export_marabou.py:26-27 | the nodes of an equation not yet reached, a subset of its nodes |
| Reach.BecauseGrows | src/redy/convert/export_marabou.py:22-28 | a reason to reach a node stays valid once more nodes are reached |
| Reach.JustifiedAppend | src/redy/convert/export_marabou.py:36 | appending a node with a reason keeps every node of `reachable` justified by the nodes before it |
| Reach.Shrinks | src/redy/convert/export_marabou.py:34-37 | the nodes left to reach shrink with each append, so the recursion ends |
| Reach.Grown | src/redy/convert/export_marabou.py:36-37 | appending to `reachable` keeps its old entries and the part already closed under `get_node_next` |
| Reach.VisitingStep | src/redy/convert/export_marabou.py:37 | visiting one more successor keeps the loop's invariant |
| Reach.Visit | src/redy/convert/export_marabou.py:34-37 | `_reachable_from_input` appends only new nodes, each with a reason, reaches `node`, and leaves every newly reached node with all its successors reached |
| Reach.VisitAll | src/redy/convert/export_marabou.py:22 | visiting the frontier reaches every frontier node, keeps what was reached, lists no node twice and keeps `reachable` closed under successors |
| Reach.Single | src/redy/convert/export_marabou.py:28 | a set with one member is that member |
| Reach.Frontier | src/redy/convert/export_marabou.py:23-28 | the next frontier is empty exactly when no EQ equation has exactly one unreached node, and each of its nodes is such a node |
| Reach.RoundStep | src/redy/convert/export_marabou.py:19-30 | a round keeps the loop invariant and reaches a new node, so the while loop ends |
| Reach.ReachableFromInput | src/redy/convert/export_marabou.py:16-32 | `reachable` lists no node twice, holds every input, is closed under `get_node_next`, justifies each node by the nodes before it, and (with an input) leaves no EQ equation with exactly one unreached node; with no input it is empty |
| Reach.JustifiedLeast | src/redy/convert/export_marabou.py:16-37 | every node reached lies in every set that holds the inputs and is closed under the three rules |
| Reach.ReachIsLeast | src/redy/convert/export_marabou.py:16-37 | with an input, `reachable` is exactly the least set closed under the rules: no node is reached without a reason, and none with a reason is missed |
| Reach.SolverQuery.constructor | src/redy/convert/export_marabou.py:56-64 | the three fields the mitigation reads and rebinds |
| Reach.AllFixed | src/redy/convert/export_marabou.py:54 | the first assertion holds exactly when every suspected node has equal lower and upper limits |
| Reach.ToBeAdded | src/redy/convert/export_marabou.py:57 | the variables of the suspected nodes, in their order, or a KeyError when one is missing from `translate` |
| Reach.NoneOld | src/redy/convert/export_marabou.py:58 | the second assertion holds exactly when no new variable is already an input |
| Reach.Suspected | src/redy/convert/export_marabou.py:51-53 | the nodes of the view that are not reached, each once |
| Reach.AddedFacts | src/redy/convert/export_marabou.py:56-60 | the added variables are exactly those of the suspected nodes, none an old input |
| Reach.MitigationVerdict | src/redy/convert/export_marabou.py:53-58 | the mitigation passes exactly when every suspected node has equal limits, a variable, and a variable that is not an input; otherwise it fails with the error of the first check that does not hold |
| Reach.AppendSuspected | src/redy/convert/export_marabou.py:54-64 | over a list of the suspected nodes, the outcome is the verdict above; on success the input list is the old one followed by one variable per suspected node, exactly those nodes' variables, and `realInputs` is the old list; on failure nothing is rebound |
| Reach.Mitigate | src/redy/convert/export_marabou.py:49-64 | the suspected nodes are the view's nodes outside the reachable set; the outcome is the verdict over them, with the same rebinding of the inputs |
| Subspace.DigitOfChar | src/example_basics.py:13 | `int(c)` of one character succeeds exactly on a decimal digit, with its value |
| Subspace.ParseDigits | src/example_basics.py:13 | one digit below 10 per character, when the string reads at all |
| Subspace.ParseDigitsMeaning | src/example_basics.py:13 | `list(map(int, subspace))` succeeds exactly when every character is a digit, and gives their values |
| Subspace.StepPart | src/example_basics.py:18-22 | a digit below SPLIT on a known interval passes and leaves exactly the part `[l + ch*chsz, l + (ch+1)*chsz]`, which is bounded |
| Subspace.StepFails | src/example_basics.py:18-22 | one step passes exactly when the digit is below SPLIT and both ends are known and in order |
| Subspace.Steps | src/example_basics.py:14-22 | the steps keep the arena's size |
| Subspace.Subspace | src/example_basics.py:9-22 | `apply_subspace` keeps the arena's size |
| Subspace.StepsFrame | src/example_basics.py:17-22 | the steps change only limits, and only those of input nodes |
| Subspace.StepsPass | src/example_basics.py:14-22 | with digits below SPLIT and bounded inputs, every step passes |
| Subspace.PassedDigits | src/example_basics.py:18 | steps that all pass read only digits below SPLIT |
| Subspace.PassedBounded | src/example_basics.py:19-22 | steps that all pass found every input they reach bounded |
| Subspace.AcceptedPasses | src/example_basics.py:9-22 | an acceptable subspace string passes |
| Subspace.PassedAccepted | src/example_basics.py:9-22 | a subspace string that passes is acceptable: an input exists, the length is a multiple of the input count, every digit is below SPLIT, every input is bounded |
| Subspace.DigitsBelow | src/example_basics.py:8-18 | digits below SPLIT are the characters '0' and '1' |
| Subspace.SubspaceOutcome | src/example_basics.py:9-22 | `apply_subspace` succeeds exactly on the strings it accepts |
| Subspace.ColumnWithin | src/example_basics.py:15-17 | within a chunk, input `col` takes the digit at position `col` of that chunk |
| Subspace.ColumnCount | src/example_basics.py:14-17 | k whole chunks give every input k digits |
| Subspace.StepsColumns | src/example_basics.py:14-22 | with distinct inputs, each input ends with the interval its own column of digits selects, whatever happens to the other inputs |
| Subspace.Pow2 | src/example_basics.py:21 | the number of parts after k halvings is at least 1 |
| Subspace.BinaryRange | src/example_basics.py:14-22 | k digits below SPLIT name one of the 2^k parts |
| Subspace.BinaryFirst | src/example_basics.py:14-22 | the first digit selects the lower or upper half of the parts |
| Subspace.UnitsAdd | src/example_basics.py:22 | parts laid end to end add up |
| Subspace.UnitsProduct | src/example_basics.py:22 | `n` parts of width `w` span `n * w` |
| Subspace.HalvesUnits | src/example_basics.py:14-22 | on an interval of 2^k parts, k digits select the part numbered by the digits read in binary |
| Subspace.Divided | src/example_basics.py:21 | dividing a width and multiplying back gives the width, and keeps it non-negative |
| Subspace.MultipleAtLeast | src/example_basics.py:11 | a non-empty string whose length is a multiple of the input count is at least that long |
| Subspace.UnitsNonNegative | src/example_basics.py:22 | parts of a non-negative width span a non-negative length |
| Subspace.UnitsMonotone | src/example_basics.py:22 | more parts reach further |
| Subspace.HalvesClosed | src/example_basics.py:14-22 | k digits select part `Binary(bits)` of the 2^k equal parts of the interval, and it lies inside the interval: later chunks refine inside earlier choices |
| Subspace.HalvesInside | src/example_basics.py:14-22 | the same, stated for a given part width |
| Subspace.ColumnsPerChunk | src/example_basics.py:14-17 | each input receives one digit per chunk |
| Subspace.SubspaceCell | src/example_basics.py:9-22 | the closed form: after a successful `apply_subspace` with distinct inputs, input `col` holds part `Binary(column)` of the 2^k equal parts of its first interval |
| Subspace.ColumnDigits | src/example_basics.py:18 | a column holds only digits below SPLIT |
| Subspace.StepsAt | src/example_basics.py:17-22 | a failing step ends the run with what it stored; a passing one hands on to the next |
| Subspace.StepUpdates | src/example_basics.py:19-22 | a step is exactly the `updateLimit(l + ch*chsz, l + (ch+1)*chsz)` call, and passes exactly when that call's assertion does |
| Subspace.ApplyDigit | src/example_basics.py:18-22 | one pass of the inner loop sets the input's limit to the step's limit and returns its outcome |
| Subspace.ApplySubspace | src/example_basics.py:9-22 | the loops leave the arena and outcome `Subspace` describes |
| Subspace.ApplyChunk | src/example_basics.py:15-22 | the inner loop over one chunk takes `Steps` as far as the chunk goes, or stops at its first failing digit with the state `Steps` gives |
| Text.StripLeft | src/redy/convert/import_nnet.py:18 | drops exactly the leading whitespace |
| Text.StripRight | src/redy/convert/import_nnet.py:18 | drops exactly the trailing whitespace |
| Text.Strip | src/redy/convert/import_nnet.py:18 | `strip()` leaves a text with whitespace at neither end |
| Text.StripIsMiddle | src/redy/convert/import_nnet.py:18 | what `strip()` keeps is a slice with only whitespace around it |
| Text.StripLeftOf | src/redy/convert/import_nnet.py:18 | leading whitespace before a text that does not start with whitespace is all that is dropped |
| Text.StripRightOf | src/redy/convert/import_nnet.py:18 | trailing whitespace after a text that does not end with whitespace is all that is dropped |
| Text.StripOf | src/redy/convert/import_nnet.py:18 | stripping recovers a trimmed text from any whitespace padding |
| Text.StripTrimmed | src/redy/convert/import_nnet.py:18 | a trimmed text is its own `strip()` |
| Text.Split | src/redy/convert/import_nnet.py:20 | `split(sep)` gives at least one part, no part holds the separator, and joining the parts gives the text back |
| Text.SplitNoSep | src/redy/convert/import_ipq.py:155 | a text without the separator splits into itself |
| Text.SplitFront | src/redy/convert/import_ipq.py:155 | splitting at the first separator |
| Text.SplitJoin | src/redy/convert/import_ipq.py:155 | splitting what `Join` built gives the parts back |
| Text.Digits | src/redy/convert/import_nnet.py:71 | the decimal digits of a number, at least one |
| Text.DigitsRoundTrip | src/redy/convert/import_nnet.py:71 | the digits printed denote the number |
| Text.DigitsValueAppend | src/redy/convert/import_nnet.py:33 | appended digits shift the value left |
| Text.ZerosValue | src/redy/convert/import_nnet.py:71 | a run of zeros denotes 0 |
| Text.Pad | src/redy/convert/import_nnet.py:71 | `{:02}` padding gives digits, at least as many as asked |
| Text.LeadingZeros | src/redy/convert/import_nnet.py:71 | leading zeros do not change the value |
| Text.PadValue | src/redy/convert/import_nnet.py:71 | padding keeps the value |
| Text.ParseNat | src/redy/convert/import_ipq.py:157 | a run of digits reads exactly when it is non-empty and all digits |
| Text.DigitsTrimmed | src/redy/convert/import_ipq.py:157 | an integer's text has no whitespace at either end |
| Text.StripIntText | src/redy/convert/import_ipq.py:157 | `strip` leaves an integer's text alone |
| Text.UnsignedIntText | src/redy/convert/import_ipq.py:157 | the sign and digits read back from an integer's text |
| Text.ParseIntText | src/redy/convert/import_ipq.py:157 | `int(str(n)) == n` |
| Text.ScaledQuotient | src/redy/convert/import_ipq.py:179 | scaling by ten k times is division by 10^k |
| Text.ScaledNegate | src/redy/convert/import_ipq.py:179 | scaling commutes with negation |
| Text.NoPoint | src/redy/convert/import_ipq.py:179 | a digit string holds no decimal point |
| Text.PointAfterDigits | src/redy/convert/import_ipq.py:179 | the first point after a digit string is the one that follows it |
| Text.DecimalUnsigned | src/redy/convert/import_ipq.py:179 | a printed decimal is trimmed and reads back its sign and body |
| Text.DecimalBodyValue | src/redy/convert/import_ipq.py:179 | the body of a printed decimal reads back as its magnitude |
| Text.ParseDecimalText | src/redy/convert/import_ipq.py:179 | `float` reads back `m / 10^k` from the decimal printed with `k` places |
| Text.SignedScaled | src/redy/convert/import_ipq.py:179 | a magnitude read with its sign gives the signed number |
| Text.ParseTrimmed | src/redy/convert/import_ipq.py:179 | `float` of a trimmed text in terms of its sign and body |
| Text.ParseRealIntText | src/redy/convert/import_nnet.py:40 | `float(str(n)) == n` for an integer |
| Nnet.Fields | src/redy/convert/import_nnet.py:20 | `line.split(",")[:-1]`: fields without commas |
| Nnet.FieldsOfJoin | src/redy/convert/import_nnet.py:20 | whatever follows the last comma is dropped and the fields before it are returned intact |
| Nnet.NextRecordIsFirst | src/redy/convert/import_nnet.py:14-20 | one call of the reader yields the first record, leaves the others, and fails exactly when no record is left |
| Nnet.ReadBack | src/redy/convert/import_nnet.py:14-20 | a record written with a trailing comma after comment lines is read back field by field |
| Nnet.ReadLineBack | src/redy/convert/import_nnet.py:14-20 | the same, for any line whose stripped form splits into those fields |
| Nnet.SkipComments | src/redy/convert/import_nnet.py:15-19 | comment lines before a record are skipped |
| Nnet.LineReader.constructor | src/redy/convert/import_nnet.py:11-12 | the reader starts with all the lines |
| Nnet.LineReader.Read | src/redy/convert/import_nnet.py:14-20 | `__call__` pops lines up to the first non-comment one and returns its fields; the remaining records are the old ones but the first; an exhausted reader fails |
| Nnet.ParseAll | src/redy/convert/import_nnet.py:33-40 | a list comprehension of `int`/`float` succeeds exactly when every field parses, one value per field |
| Nnet.OrMalformed | src/redy/convert/import_nnet.py:61 | a ValueError of `int`/`float` stops the import |
| Nnet.HeaderOf | src/redy/convert/import_nnet.py:33-43 | the header record holds no weights yet |
| Nnet.ReadInts | src/redy/convert/import_nnet.py:33-35 | `[int(x) for x in read()]` on the next record, consuming it |
| Nnet.ReadReals | src/redy/convert/import_nnet.py:40-43 | `[float(x) for x in read()]` on the next record, consuming it |
| Nnet.TakeRow | src/redy/convert/import_nnet.py:57-58 | the first `width` values of a record, or an IndexError when it is shorter |
| Nnet.ReadRows | src/redy/convert/import_nnet.py:54-58 | the weight-row loop reads `count` records as `RowsFrom` does |
| Nnet.ReadBiases | src/redy/convert/import_nnet.py:60-62 | the bias loop reads `count` records as `BiasesFrom` does |
| Nnet.RowsStep | src/redy/convert/import_nnet.py:54-58 | one pass of the weight-row loop |
| Nnet.BiasesStep | src/redy/convert/import_nnet.py:60-62 | one pass of the bias loop |
| Nnet.RowsShift | src/redy/convert/import_nnet.py:54-58 | the rows read depend only on the records, not where they sit |
| Nnet.BiasesShift | src/redy/convert/import_nnet.py:60-62 | the biases read depend only on the records, not where they sit |
| Nnet.ReadLayer | src/redy/convert/import_nnet.py:48-62 | one pass of the `layernum` loop reads `current` weight rows then `current` biases |
| Nnet.LayerShift | src/redy/convert/import_nnet.py:48-62 | a layer read depends only on its records |
| Nnet.LayersShift | src/redy/convert/import_nnet.py:47-62 | the layers read depend only on their records |
| Nnet.ReadHeader | src/redy/convert/import_nnet.py:33-43 | reads the seven header records as `HeaderOf` does, asserting `len(layerSizes) == numLayers + 1` |
| Nnet.StatisticsShift | src/redy/convert/import_nnet.py:40-43 | the statistics read depend only on their records |
| Nnet.ReadStatistics | src/redy/convert/import_nnet.py:40-43 | reads the four statistics records |
| Nnet.LayersAdvance | src/redy/convert/import_nnet.py:47-62 | one pass of the `layernum` loop consumes `2 * current` records or fails |
| Nnet.ReadLayers | src/redy/convert/import_nnet.py:45-62 | the `layernum` loop reads the layers as `LayersFrom` does |
| Nnet.ReadFile | src/redy/convert/import_nnet.py:30-62 | everything read from the file is `Decode` of its records |
| Nnet.RowAtMeaning | src/redy/convert/import_nnet.py:55-58 | a weight row is the first `width` parsed values of its record; a short record is an IndexError |
| Nnet.BiasAtMeaning | src/redy/convert/import_nnet.py:61 | a bias is the parsed first field of its record; an empty record is an IndexError |
| Nnet.RowsMeaning | src/redy/convert/import_nnet.py:54-58 | the row loop succeeds exactly when every row does, appending them in order |
| Nnet.BiasesMeaning | src/redy/convert/import_nnet.py:60-62 | the bias loop succeeds exactly when every bias does, appending them in order |
| Nnet.LayersMeaning | src/redy/convert/import_nnet.py:47-62 | the layer loop succeeds exactly when every layer does, layer j read at its offset |
| Nnet.LayerAtMeaning | src/redy/convert/import_nnet.py:54-62 | a layer's records are `current` weight rows then `current` biases |
| Nnet.LayersLayout | src/redy/convert/import_nnet.py:47-62 | layer k sits at record 7 + two records per neuron of the layers before it |
| Nnet.DecodeLayout | src/redy/convert/import_nnet.py:30-62 | the decoded file record by record: four header ints, `numLayers + 1` layer sizes, the four statistics, and each layer at its offset |
| Nnet.Normalise | src/redy/convert/import_nnet.py:64-66 | the normalisation loop computes `NormaliseFrom` |
| Nnet.NormaliseMeaning | src/redy/convert/import_nnet.py:64-66 | normalisation succeeds exactly when each of the first `inputSize` passes can read `means[:-1]` and `ranges[:-1]` and divide; it rewrites those entries to `(x - mean) / range` and keeps the rest |
| Nnet.Zip | src/redy/convert/import_nnet.py:83 | `zip` pairs up to the shorter list, position by position |
| Nnet.NoLayers | src/redy/convert/import_nnet.py:68 | one empty layer per layer size |
| Nnet.InputsFrom | src/redy/convert/import_nnet.py:69-73 | the input loop keeps the number of layers and non-empty chains |
| Nnet.ChainsFrom | src/redy/convert/import_nnet.py:79-97 | the neuron loop keeps the number of layers and non-empty chains |
| Nnet.BuildFrom | src/redy/convert/import_nnet.py:75-97 | the layer loop keeps the number of layers and leaves no chain empty |
| Nnet.BuildInputs | src/redy/convert/import_nnet.py:69-73 | the input loop leaves the arena and layers `InputsFrom` describes |
| Nnet.BuildChains | src/redy/convert/import_nnet.py:79-97 | the neuron loop leaves the arena and layers `ChainsFrom` describes |
| Nnet.BuildLayers | src/redy/convert/import_nnet.py:75-97 | the layer loop leaves the arena and layers `BuildFrom` describes |
| Nnet.ImportNnet | src/redy/convert/import_nnet.py:24-99 | `import_nnet` leaves the arena `Import` describes and returns a new, sane network with its layers, or its fault |
| Nnet.InputsGrow | src/redy/convert/import_nnet.py:69-73 | the input loop only appends to the arena |
| Nnet.InputsOutcome | src/redy/convert/import_nnet.py:69-73 | the input loop succeeds exactly when every interval is ordered and layer 0 exists; otherwise the `updateLimit` assertion or an IndexError |
| Nnet.InputsLayout | src/redy/convert/import_nnet.py:69-73 | input i is a new plain node named for (0, i) with interval [min, max], appended to layer 0 as its own chain |
| Nnet.InputsLayered | src/redy/convert/import_nnet.py:69-73 | the input loop keeps the network feed-forward with no repeated node |
| Nnet.ChainAt | src/redy/convert/import_nnet.py:94-97 | a chain is [Sum, ReLU] in a hidden layer and [Sum] in the output layer |
| Nnet.ChainsGrow | src/redy/convert/import_nnet.py:79-97 | the neuron loop only appends, to the arena and to layer l |
| Nnet.ChainsLayout | src/redy/convert/import_nnet.py:79-97 | each chain's first node is the sum of its weight row zipped with the previous outputs plus its bias, and in a hidden layer the second is a ReLU of that sum with lower limit 0 |
| Nnet.SumReads | src/redy/convert/import_nnet.py:83 | a sum reads only the previous layer's outputs |
| Nnet.ChainStepLayered | src/redy/convert/import_nnet.py:79-97 | one neuron keeps the network feed-forward with no repeated node |
| Nnet.ChainsLayered | src/redy/convert/import_nnet.py:79-97 | the neuron loop keeps the network feed-forward with no repeated node |
| Nnet.BuildGrow | src/redy/convert/import_nnet.py:75-97 | the layer loop only appends to the arena and touches only the layers it reaches |
| Nnet.BuildLayered | src/redy/convert/import_nnet.py:75-97 | the layer loop keeps the network feed-forward with no repeated node |
| Nnet.ChainsBuilt | src/redy/convert/import_nnet.py:76-97 | the neuron loop on an empty layer builds exactly that layer from its weights and biases |
| Nnet.LayerBuiltStable | src/redy/convert/import_nnet.py:75-97 | a finished layer stays finished while later ones are built |
| Nnet.BuildLayout | src/redy/convert/import_nnet.py:75-97 | every layer the loop reaches is built from its weights and biases |
| Nnet.DecodedSizes | src/redy/convert/import_nnet.py:47-62 | layer k + 1 has layerSizes[k + 1] rows and biases, each row layerSizes[k] weights |
| Nnet.NoLayersLayered | src/redy/convert/import_nnet.py:68 | the empty layers are trivially feed-forward |
| Nnet.ImportSane | src/redy/convert/import_nnet.py:24-99 | a successful import only adds nodes and returns a feed-forward network with no repeated node that passes `ViewNetwork.sanity` |
| Nnet.ImportOutcome | src/redy/convert/import_nnet.py:64-99 | once decoded and normalised, the import fails exactly on an empty normalised interval or on inputs with no layer to hold them |
| Nnet.ImportEarlyFailure | src/redy/convert/import_nnet.py:30-66 | a failed read or normalisation creates no node and reports its error |
| Nnet.BuiltInputs | src/redy/convert/import_nnet.py:68-73 | the built layer 0 holds input i as the chain of one new node with the normalised interval |
| Nnet.BuiltLayers | src/redy/convert/import_nnet.py:75-99 | every later layer j is built from `weights[j-1]` and `biases[j-1]` |
| Nnet.ImportIsBuild | src/redy/convert/import_nnet.py:24-99 | once the file decodes, the import is the build from its contents |
| Nnet.ImportInputs | src/redy/convert/import_nnet.py:68-73 | a successful import has len(layerSizes) layers and layer 0 holds the normalised inputs |
| Nnet.ImportLayers | src/redy/convert/import_nnet.py:75-99 | a successful import's layer j holds layerSizes[j] neurons built from its weights and biases |
| Nnet.PaddedValue | src/redy/convert/import_nnet.py:80 | a `{:02}` number reads back as that number |
| Nnet.SeparatorAt | src/redy/convert/import_nnet.py:80 | where the shorter field ends, one name has '_' and the other a digit |
| Nnet.DigitsBeforeSeparator | src/redy/convert/import_nnet.py:80 | two digit fields followed by '_' start the same name only if equal |
| Nnet.SeparatedFields | src/redy/convert/import_nnet.py:80 | a name's two padded numbers are determined by the name |
| Nnet.NamesDistinct | src/redy/convert/import_nnet.py:71-80 | different (layer, neuron) positions never share a name within one import |
| Ipq.VarRecord | src/redy/convert/import_ipq.py:154-169 | an input or output record reads as a variable below numVars and, for an output, not an input; otherwise the import fails |
| Ipq.VarsFrom | src/redy/convert/import_ipq.py:153-170 | the record loop keeps what was read and appends only variables below numVars that are not inputs |
| Ipq.ParseQuery | src/redy/convert/import_ipq.py:141-210 | a parsed query's inputs and outputs are below numVars, and no output is an input |
| Ipq.ReadVars | src/redy/convert/import_ipq.py:151-170 | the input (output) loop computes `VarsFrom` |
| Ipq.ReadBounds | src/redy/convert/import_ipq.py:172-181 | one half of the bound loop computes `BoundsFrom` |
| Ipq.ReadAdds | src/redy/convert/import_ipq.py:191-192 | the pair loop computes `AddsFrom` |
| Ipq.ReadEquation | src/redy/convert/import_ipq.py:185-193 | one equation record is read as `EquationRecord` does |
| Ipq.ReadEquations | src/redy/convert/import_ipq.py:183-193 | the equation loop computes `EquationsFrom` |
| Ipq.ReadConstraints | src/redy/convert/import_ipq.py:195-210 | the constraint loop computes `ConstraintsFrom` |
| Ipq.ReadQuery | src/redy/convert/import_ipq.py:141-210 | `Query.__init__` reads the five counts, then the inputs, outputs, bounds, equations and constraints in file order, as `ParseQuery` describes |
| Ipq.VarsMeaning | src/redy/convert/import_ipq.py:151-170 | the input (output) loop succeeds exactly when each of its lines is a valid record "i,var" for its position, and yields their variables in order |
| Ipq.AddsMeaning | src/redy/convert/import_ipq.py:191-192 | `zip(cur[3::2], cur[4::2])` gives one (var, coeff) pair per two fields, ignoring an odd last field, and fails when one does not parse |
| Ipq.BoundsValidStep | src/redy/convert/import_ipq.py:176-181 | past a valid first record the rest is valid for the grown table |
| Ipq.BoundsOutcome | src/redy/convert/import_ipq.py:174-181 | the bound loop succeeds exactly when its records are "var,value" pairs naming distinct variables not yet bounded |
| Ipq.BoundsTable | src/redy/convert/import_ipq.py:179-181 | on valid records the table gains each record's value under its variable and keeps the rest |
| Ipq.IntTextFields | src/redy/convert/import_ipq.py:155 | an integer's text holds no comma |
| Ipq.DecimalTextFields | src/redy/convert/import_ipq.py:177 | a decimal's text holds no comma |
| Ipq.VarRecordOf | src/redy/convert/import_ipq.py:154-159 | the record "i,var" is read back as var |
| Ipq.BoundRecordOf | src/redy/convert/import_ipq.py:176-181 | the record "var,value" is read back |
| Ipq.ReluRecordOf | src/redy/convert/import_ipq.py:202-205 | a relu record lists f before b, and the constraint read keeps (relu, b, f) |
| Ipq.Put | src/redy/convert/import_ipq.py:89 | `var[v] = n` keeps each key listed once, in insertion order |
| Ipq.KeysSplit | src/redy/convert/import_ipq.py:41 | the keys and nodes of `dvar` are its first entry's and the rest's |
| Ipq.Update | src/redy/convert/import_ipq.py:41-63 | `var.update(dvar)` adds exactly the keys of `dvar` and keeps each listed once |
| Ipq.UpdateValues | src/redy/convert/import_ipq.py:41-63 | after the update every variable maps to an old node or to one of `dvar` |
| Ipq.UpdateKeeps | src/redy/convert/import_ipq.py:41-63 | variables `dvar` does not name keep their nodes |
| Ipq.UpdateSets | src/redy/convert/import_ipq.py:41-63 | each variable of `dvar` maps to its `dvar` node |
| Ipq.FixedFrom | src/redy/convert/import_ipq.py:79 | the fixed variables are exactly those below numVars whose lower and upper bounds are present and equal, in increasing order |
| Ipq.Unmapped | src/redy/convert/import_ipq.py:21 | the terms whose variable is not mapped, and no others |
| Ipq.Defines | src/redy/convert/import_ipq.py:16-36 | an equation defines a variable only when it is of type 0 with exactly that one variable unmapped, of coefficient -1 (or 1 when not strict), every other variable mapped |
| Ipq.Terms | src/redy/convert/import_ipq.py:34 | every input of the new sum is a mapped node |
| Ipq.ReluOf | src/redy/convert/import_ipq.py:50-56 | a constraint is accepted exactly when it is a relu, and defines f reading `var[b]` exactly when b is mapped and f is not |
| Ipq.KeysAppend | src/redy/convert/import_ipq.py:37 | one more `dvar` entry adds its key |
| Ipq.SumLayerFresh | src/redy/convert/import_ipq.py:16-41 | a sum layer defines only new variables the equations mention, one per node |
| Ipq.SubsetCard | src/redy/convert/import_ipq.py:92-99 | a subset is no larger |
| Ipq.Progress | src/redy/convert/import_ipq.py:92-99 | gaining a key the equations mention leaves fewer to define |
| Ipq.Shrinks | src/redy/convert/import_ipq.py:92-99 | defining one new mentioned variable leaves fewer to define |
| Ipq.RoundShrinks | src/redy/convert/import_ipq.py:92-99 | a pass after which the loop goes on defines a new mentioned variable, so the `while True` loop ends |
| Ipq.CopyBounds | src/redy/convert/import_ipq.py:112-115 | copying bounds keeps the arena's size and every node's kind and name, and touches only mapped nodes |
| Ipq.Singletons | src/redy/convert/import_ipq.py:119-133 | `[[x] for x in layer]`: one one-node chain per node |
| Ipq.SolvedReads | src/redy/convert/import_ipq.py:34 | a solved equation reads mapped nodes only |
| Ipq.GrownTrans | src/redy/convert/import_ipq.py:92-99 | growing the arena twice is growing it once |
| Ipq.AppendedStep | src/redy/convert/import_ipq.py:35-59 | one more node with its variable extends the layer and `dvar` |
| Ipq.FreshKey | src/redy/convert/import_ipq.py:36-58 | a variable not yet in `dvar` keeps its keys distinct |
| Ipq.SumLayerShape | src/redy/convert/import_ipq.py:12-43 | a sum layer appends its nodes to the arena, each reading mapped nodes only, each listed with its variable |
| Ipq.ReluLayerShape | src/redy/convert/import_ipq.py:45-65 | a ReLU layer appends its nodes to the arena, each reading a mapped node, each listed with its variable |
| Ipq.MembersAppend | src/redy/convert/import_ipq.py:95-99 | one more stage adds its nodes |
| Ipq.ClosedStep | src/redy/convert/import_ipq.py:93-99 | a layer of new nodes reading mapped nodes keeps the state closed |
| Ipq.InputsArena | src/redy/convert/import_ipq.py:85-89 | the input loop appends one plain node per input variable and lists them in order |
| Ipq.InputsTable | src/redy/convert/import_ipq.py:85-89 | the input loop maps each input variable to one of its new nodes |
| Ipq.InputsListed | src/redy/convert/import_ipq.py:85-89 | the input loop keeps the table's keys listed once each |
| Ipq.InputsImage | src/redy/convert/import_ipq.py:85-89 | each variable maps to an old node or to one of the new input nodes |
| Ipq.InputsKeys | src/redy/convert/import_ipq.py:85-89 | the keys after the loop are the old keys and the input variables |
| Ipq.InputsClosed | src/redy/convert/import_ipq.py:83-89 | after the input loop the inputs are the only stage and the table maps exactly the input variables |
| Ipq.SumsClosed | src/redy/convert/import_ipq.py:93-95 | a sum layer keeps the state closed |
| Ipq.RelusClosed | src/redy/convert/import_ipq.py:97-99 | a ReLU layer keeps the state closed; an empty one changes nothing |
| Ipq.RoundClosed | src/redy/convert/import_ipq.py:92-99 | a pass keeps the state closed, only appends to the arena, and adds a stage |
| Ipq.RoundArena | src/redy/convert/import_ipq.py:92-99 | a pass only appends to the arena |
| Ipq.GrowArena | src/redy/convert/import_ipq.py:92-99 | the loop only appends to the arena |
| Ipq.GrowClosed | src/redy/convert/import_ipq.py:92-99 | the loop ends with the stages closed under reading, above the old arena, at least one more than before |
| Ipq.ChainNodesAppend | src/redy/convert/import_ipq.py:125-130 | one more chain adds its nodes |
| Ipq.NodeSetAppend | src/redy/convert/import_ipq.py:132 | one more layer adds its nodes |
| Ipq.SingletonsNodes | src/redy/convert/import_ipq.py:119-133 | singleton chains hold exactly the layer's nodes |
| Ipq.PairsNodes | src/redy/convert/import_ipq.py:123-127 | the pairing loop lists exactly the nodes it marks used: every ReLU and only nodes of the two layers |
| Ipq.SinglesNodes | src/redy/convert/import_ipq.py:129-130 | the second loop adds every unused node as a chain of its own |
| Ipq.PairedNodes | src/redy/convert/import_ipq.py:121-132 | a paired layer holds exactly the nodes of its sum and ReLU layers: each ReLU with its input, the rest alone |
| Ipq.StagesFromStep | src/redy/convert/import_ipq.py:120 | the stages from `i` on |
| Ipq.CombineNodes | src/redy/convert/import_ipq.py:120-133 | the combining loop adds the nodes of the stages it reaches and of the last stage |
| Ipq.CombineMembers | src/redy/convert/import_ipq.py:118-133 | the combined layers hold exactly the nodes of the stages |
| Ipq.OutsideStages | src/redy/convert/import_ipq.py:112-115 | nodes the stages do not hold are not mapped |
| Ipq.FinishSane | src/redy/convert/import_ipq.py:101-136 | finishing a closed state gives a sane network, keeping the arena's size, kinds and names, and leaving the old nodes untouched |
| Ipq.BuildSane | src/redy/convert/import_ipq.py:78-137 | a built network is sane: its nodes read only its own nodes; the old arena is untouched; the inputs returned are the declared ones, before the fixed variables were appended |
| Ipq.BuildInputs | src/redy/convert/import_ipq.py:83-89 | the input loop leaves the arena, layer and table `InputsFrom` describes |
| Ipq.BuildWeightedSum | src/redy/convert/import_ipq.py:12-43 | `build_weighted_sum` leaves the arena `SumLayer` describes and returns its layer and the table after `var.update(dvar)`, or its fault |
| Ipq.BuildRelu | src/redy/convert/import_ipq.py:45-65 | `build_relu` leaves the arena `ReluLayer` describes and returns its layer and the updated table, or its fault |
| Ipq.GrowLayers | src/redy/convert/import_ipq.py:92-99 | the `while True` loop computes `Grow` |
| Ipq.CopyLimits | src/redy/convert/import_ipq.py:112-115 | the bound loop computes `CopyBounds` |
| Ipq.PairLayer | src/redy/convert/import_ipq.py:121-132 | one neuron layer of `combined` is `Paired` |
| Ipq.CombineLayers | src/redy/convert/import_ipq.py:118-133 | the `combined` loop computes `Combine` |
| Ipq.ImportIpq | src/redy/convert/import_ipq.py:69-138 | `import_ipq` leaves the arena `Import` describes and returns a new sane network with the declared inputs, or its fault |
| IpqFacts.DotSplit | src/redy/convert/import_ipq.py:21-24 | an equation's left-hand side is its new variable's term plus the rest |
| IpqFacts.CoefUnmapped | src/redy/convert/import_ipq.py:21-24 | with one unmapped variable, its coefficient is the only one that weighs it |
| IpqFacts.TermsValue | src/redy/convert/import_ipq.py:34 | the inputs of the new sum weigh the mapped nodes as the equation's other terms do |
| IpqFacts.SolvedSatisfies | src/redy/convert/import_ipq.py:16-37 | corrected: the sum node built for the defined variable computes that variable exactly when the equation holds, for coefficient 1 as well as -1 |
| IpqFacts.WrittenSum | src/redy/convert/import_ipq.py:31-34 | as written: the sum node with scalar `-scalar` and the equation's own coefficients |
| IpqFacts.WrittenAgrees | src/redy/convert/import_ipq.py:27-34 | for coefficient -1, the only one strict mode accepts, the node as written is the corrected one |
| IpqFacts.SignLost | src/redy/convert/import_ipq.py:29-34 | for `x0 + x1 = 0` solved for x1 in non-strict mode, the node as written gives 1 where x1 is -1 |
| IpqFacts.SumLayerDefines | src/redy/convert/import_ipq.py:12-41 | a sum layer defines exactly the variables the equations solve, each by its solved node |
| IpqFacts.ReluLayerDefines | src/redy/convert/import_ipq.py:45-63 | a ReLU layer accepts only relus and defines exactly the outputs with a mapped input and an unmapped output, each by a ReLU of the input's node |

## Left out

- File and console I/O: `open(...).read()`, `splitlines()` and `print` are not modelled. The importers take the file's lines as a `seq<string>`.
- Floating point: every number is a `real`, so IEEE rounding, overflow, `inf` and `nan` are not modelled. Equalities such as `lower == upper` and the ReLU check in `validate` are exact on reals.
- Python's `int()` and `float()` are modelled by the parsers in `Text`, which accept a subset of Python's token syntax: an optional sign, ASCII digits and an optional decimal point. Exponents, `inf`/`nan`, underscores and non-ASCII digits (which Python's `int()` accepts) are rejected as `Malformed`.
- `EPSILON` (1e-13 in src/redy/features/amend.py and src/redy/convert/export_evaluate.py) is a parameter or constant of the modules that use it. Only its positivity is used.
- Node names: the global `NNET_COUNTER` is a `counter` parameter of the importers, and the name-format strings are a naming function parameter (`Nnet` and `Ipq`). `NamesDistinct` proves the `.nnet` format injective; nothing else depends on the names.
- `__repr__` and `hex(id(...))` are not modelled. Node identity is the handle into the arena.
- `export_marabou` itself (src/redy/convert/export_marabou.py:68-129) and every `MarabouNetwork`, `MarabouUtils`, `MarabouCore` and numpy call are not modelled: they wrap a foreign solver library. `Reach.SolverQuery` holds only the three fields the mitigation step touches.
- Solver invocation, `getMarabouQuery`, `solve()` and the timeout handling in src/example_basics.py, and all of src/example_milp.py and src/example_relax.py, are not modelled: they drive an external solver or parse its debug dump.
- The iteration order of Python sets of nodes (in `compareExact`, `join`, `compareMinimum` and in mitigation's `suspected`) is unspecified. The model lists a set's members in some order (`Compare.Enumerate`, `Reach.Suspected`) and promises nothing about the order.
- Python dicts are item lists that keep insertion order (`Evaluate.Store`) or an order plus a map (`Ipq.Table`). Only lookup and insertion order are modelled.
- Exceptions become `Fail` results that name a `Fault`. The general rule, then each exception that deviates from it:
  - an `AssertionError` becomes the fault that names the broken condition (`InvalidBounds`, `ReferentialIntegrity`, `UnsupportedTopology`, `UnknownOverrideKind`, `ValidationFailure`, `UnsupportedConstraint`, `BadArgument`);
  - the `.nnet` reader's assertions, that a record is left (src/redy/convert/import_nnet.py:16) and that `len(layerSizes) == numLayers + 1` (:36), become `Malformed` (`Nnet.LineReader.Read`, `Nnet.ReadHeader`);
  - a `KeyError` or `IndexError` becomes `IndexOutOfRange`;
  - a `ValueError` from `int()`/`float()` becomes `Malformed`, and so does the one from unpacking a `.nnet` header that does not have four fields (src/redy/convert/import_nnet.py:33, `Nnet.HeaderOf`);
  - the `ValueError` of `nl.index` for a node outside the view (src/redy/convert/export_evaluate.py:18) becomes `IndexOutOfRange` (`Evaluate.IndexOf`, `Evaluate.Vars`);
  - the `ValueError` of `min()` over no neurons (src/redy/features/amend.py:44) becomes `BadArgument` (`Compare.JoinFault`);
  - a `ZeroDivisionError` in back-substitution (`Evaluate.Evaluator.BackSubstitution`) and in the `.nnet` normalisation by a zero range (src/redy/convert/import_nnet.py:64-65, `Nnet.Normalise`) becomes `DegenerateEquation`; the one in `apply_subspace` (`len(subspace) % len(io.inputs)` with no inputs) becomes `BadArgument`;
  - a `TypeError` from a `None` end becomes `BadArgument`: in `apply_subspace`, and from `firstLayer < None` in `duplicateAndClip` (src/redy/features/redundancy.py:20, `Redundancy.DupClip`).
- The two assertions of `mitigate_marabou_constant_nodes_bug` raise the same `AssertionError` in the source. The model names them apart: `UnsupportedTopology` for a non-constant unreachable node, `BadArgument` for a fixed variable that is already an input.
- When propagation stops with unassigned variables, `forwardEvaluate` goes on to `validate`, whose first assertion (every variable assigned) fails with `ValidationFailure`, or it returns the partial assignment when validation is off.
- Evaluate.Evaluator.Propagate: proves every value it assigns is justified by an input, a fixed bound, an EQ back-substitution or a ReLU. It does not prove those values equal the network's true values, because a justification records no order and two back-substitutions could justify each other.
- Evaluate.Evaluator.ForwardEvaluate: the division by a zero coefficient (src/redy/convert/export_evaluate.py:103) is a `DegenerateEquation` failure. The model does not describe the values assigned before it.
- Amend.Modify: when an override fails part-way, the network and arena are left unspecified beyond the fault, like the source's half-updated objects after an `AssertionError`.
- `getModified` in src/redy/features/redundancy.py:42-45 is not a member of its own: it returns the modified copy that `_prep` builds, which `Redundancy.RedundancyTest.PrepNetworks` models.
- Ipq.Import: `originalInputs` is returned as the second component of a pair instead of being set as an attribute on the view.
- Nnet.Import, Ipq.Import: failing passes keep the nodes they already appended to the arena, as the source leaves its created nodes unreachable. The model promises nothing about those orphan nodes.
- Clip.Range, Amend.Override, Redundancy.Target, Redundancy.Rebased, Amend.ModifyStep, Amend.ModifyNeuron, Clip.ClipLayers, Compare.CompareExact, Compare.CompareMinimum, Redundancy.RedundancyTest.GetComparedExact, Redundancy.RedundancyTest.GetComparedMinimum: every layer, neuron, mode and output index is a `nat`. Python's negative list indices (an override on layer `-1`, `firstMode = -1`, a target `(-1, n, f)`, an `output` or `counteroutput` of `-1` in `net.layers[-1][output]`) are not modelled; the source's own `layers[-1]` and `ns[-1]` are modelled as the last element.
- Ipq.BuildWeightedSum: for an equation whose unmapped variable has coefficient `+1`, which non-strict mode accepts, it builds the corrected sum node (terms `-nc*c`, scalar `nc*scalar`), not the node src/redy/convert/import_ipq.py:33-34 builds (terms `(c, var[v])`, scalar `-scalar`). `IpqFacts.WrittenSum` is the node as written and `IpqFacts.SignLost` shows the difference (see Findings). For coefficient `-1` the two nodes are equal (`IpqFacts.WrittenAgrees`).
- Ipq.GrowLayers: builds its sum layers with the corrected node, as `Ipq.BuildWeightedSum` does.
- Ipq.ImportIpq: the network it returns uses the corrected sum node for coefficient `+1`, as `Ipq.BuildWeightedSum` does.
- IpqFacts.SumLayerDefines: proved of the corrected builder. For coefficient `+1` it does not describe the node the source builds, which computes the negation of the defined variable (`IpqFacts.SignLost`).

## Findings

| source | as written | input that shows it | evidently intended | confidence | as-written member | corrected member |
|---|---|---|---|---|---|---|
| src/redy/convert/import_ipq.py:29-34 | in non-strict mode an equation whose unmapped variable has coefficient `+1` is accepted, but the sum node is still built with scalar `-scalar` and the other terms' own coefficients, which solves for `-x` | `x0 + x1 = 0`, `x0` mapped, non-strict mode, `x0 = 1`: the node gives `1` where `x1` is `-1` | divide by the negated coefficient: terms `-nc*c` and scalar `nc*scalar`, which equals the written form when `nc = -1` | not executed | IpqFacts.SignLost | IpqFacts.SolvedSatisfies |
