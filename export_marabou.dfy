/**
  * Reachability from the inputs (src/redy/convert/export_marabou.py), which decides the
  * nodes a solver query must declare as extra inputs: a node is reached when it is an
  * input, when it reads a reached node, or when an EQ equation has it as its only node
  * not yet reached. The solver object itself is represented only by the three fields the
  * mitigation reads and rebinds.
  */
module Reach {
  import opened Wrappers
  import opened Nodes
  import opened Equations
  import opened Views
  import opened Compare
  import opened Evaluate

  /** No node listed twice. */
  predicate NoDup(s: seq<Handle>)
  {
    forall i, j :: 0 <= i < j < |s| ==> s[i] != s[j]
  }

  /** Every node of `nl` is in the arena. */
  predicate InArena(A: seq<Node>, nl: seq<Handle>)
  {
    forall n :: n in nl ==> n < |A|
  }

  /** The members of a list. */
  function Elems(s: seq<Handle>): set<Handle>
  {
    set x | x in s
  }

  // ---------------------------------------------------------------------------
  // get_node_next

  /** The nodes of `nl` whose `connectedTo` contains `h`, in the order of `nl`. */
  function Successors(A: seq<Node>, nl: seq<Handle>, h: Handle): (r: seq<Handle>)
    requires InArena(A, nl)
    ensures forall n :: n in r <==> n in nl && h in ConnectedTo(A[n].kind)
    ensures |r| <= |nl|
  {
    if nl == [] then []
    else
      var front, n := nl[..|nl| - 1], nl[|nl| - 1];
      assert nl == front + [n];
      assert n in nl && forall m :: m in front ==> m in nl;
      var r0 := Successors(A, front, h);
      if h in ConnectedTo(A[n].kind) then r0 + [n] else r0
  }

  /** `get_node_next(view, node)`: the loop over the view's nodes. */
  method NodeNext(g: Graph, nl: seq<Handle>, h: Handle) returns (outs: seq<Handle>)
    requires InArena(g.nodes, nl)
    ensures outs == Successors(g.nodes, nl, h)
  {
    outs := [];
    var k := 0;
    while k < |nl|
      invariant 0 <= k <= |nl|
      invariant InArena(g.nodes, nl[..k]) && outs == Successors(g.nodes, nl[..k], h)
    {
      var n := nl[k];
      assert n in nl && nl[..k + 1] == nl[..k] + [n];
      SuccessorsSnoc(g.nodes, nl[..k], n, h);
      if h in g.Refs(n) {
        outs := outs + [n];
      }
      k := k + 1;
    }
    assert nl[..|nl|] == nl;
  }

  /** One more node of the view adds itself when it reads `h`. */
  lemma SuccessorsSnoc(A: seq<Node>, s: seq<Handle>, n: Handle, h: Handle)
    requires InArena(A, s + [n])
    ensures InArena(A, s) && n < |A|
    ensures Successors(A, s + [n], h) ==
              if h in ConnectedTo(A[n].kind) then Successors(A, s, h) + [n] else Successors(A, s, h)
  {
    assert (s + [n])[..|s|] == s;
    assert n in s + [n];
    assert forall m :: m in s ==> m in s + [n];
  }

  // ---------------------------------------------------------------------------
  // Why a node is reached

  /** What reachability is computed from: the arena, the view's nodes, inputs and equations. */
  datatype Rules = Rules(A: seq<Node>, nl: seq<Handle>, inputs: seq<Handle>, eqs: seq<Constraint>)

  /** The nodes of an equation. */
  function EqNodes(c: Constraint): set<Handle>
  {
    set i | 0 <= i < |c.terms| :: c.terms[i].1
  }

  /** The nodes of an equation that `R` does not hold. */
  function Unreached(c: Constraint, R: seq<Handle>): (r: set<Handle>)
    ensures r <= EqNodes(c)
  {
    set i | 0 <= i < |c.terms| && c.terms[i].1 !in R :: c.terms[i].1
  }

  /** An EQ equation of which `x` is the only node outside `pre`. */
  predicate EqForces(c: Constraint, pre: seq<Handle>, x: Handle)
  {
    c.comparator == EQ && x in EqNodes(c) && Unreached(c, pre) <= {x}
  }

  /** `x` may be reached once the nodes `pre` are: an input, a reader of one of them, or forced by an EQ equation. */
  ghost predicate Because(rs: Rules, pre: seq<Handle>, x: Handle)
  {
    || x in rs.inputs
    || (x in rs.nl && x < |rs.A| && exists y :: y in pre && y in ConnectedTo(rs.A[x].kind))
    || exists j :: 0 <= j < |rs.eqs| && EqForces(rs.eqs[j], pre, x)
  }

  /** Every node of the list is reached because of the nodes before it. */
  ghost predicate Justified(rs: Rules, r: seq<Handle>)
  {
    forall p :: 0 <= p < |r| ==> Because(rs, r[..p], r[p])
  }

  /** More reached nodes keep every reason valid. */
  lemma BecauseGrows(rs: Rules, pre: seq<Handle>, pre': seq<Handle>, x: Handle)
    requires Because(rs, pre, x) && forall y :: y in pre ==> y in pre'
    ensures Because(rs, pre', x)
  {
    if exists j :: 0 <= j < |rs.eqs| && EqForces(rs.eqs[j], pre, x) {
      var j :| 0 <= j < |rs.eqs| && EqForces(rs.eqs[j], pre, x);
      assert Unreached(rs.eqs[j], pre') <= Unreached(rs.eqs[j], pre);
      assert EqForces(rs.eqs[j], pre', x);
    }
  }

  /** Appending a node with a reason keeps the list justified. */
  lemma JustifiedAppend(rs: Rules, r: seq<Handle>, x: Handle)
    requires Justified(rs, r) && Because(rs, r, x)
    ensures Justified(rs, r + [x])
  {
    forall p | 0 <= p < |r| + 1 ensures Because(rs, (r + [x])[..p], (r + [x])[p]) {
      if p < |r| {
        assert (r + [x])[..p] == r[..p];
      } else {
        assert (r + [x])[..p] == r;
      }
    }
  }

  /** Every node reached after position `p` has all its readers reached. */
  predicate ClosedFrom(A: seq<Node>, nl: seq<Handle>, r: seq<Handle>, p: nat)
    requires InArena(A, nl)
  {
    forall q, n :: p <= q < |r| && n in nl && r[q] in ConnectedTo(A[n].kind) ==> n in r
  }

  /** Taking away one more member of a larger set leaves fewer. */
  lemma Shrinks(M: set<Handle>, N: set<Handle>, K: set<Handle>, K': set<Handle>, x: Handle)
    requires N <= M && K <= K' && x in M && x in K' && x !in K
    ensures |N - K'| < |M - K|
  {
    var S, T := N - K', (M - K) - {x};
    assert T == S + (T - S);
    assert S * (T - S) == {};
    assert M - K == T + {x};
  }

  // ---------------------------------------------------------------------------
  // _reachable_from_input

  /** Growing a list at its end keeps its members, and its closed part stays closed. */
  lemma Grown(A: seq<Node>, nl: seq<Handle>, r: seq<Handle>, r': seq<Handle>, p: nat)
    requires InArena(A, nl) && r <= r' && p <= |r|
    requires ClosedFrom(A, nl, r, p) && ClosedFrom(A, nl, r', |r|)
    ensures ClosedFrom(A, nl, r', p)
    ensures forall i :: 0 <= i < |r| ==> r'[i] == r[i]
    ensures forall y :: y in r ==> y in r'
  {
    assert forall i :: 0 <= i < |r| ==> r'[i] == r[i];
    forall y | y in r ensures y in r' {
      var i :| 0 <= i < |r| && r[i] == y;
      assert r'[i] == y;
    }
  }

  /** What holds of `r` while the readers `next` of `node` are visited, the first `k` of them done. */
  ghost predicate Visiting(rs: Rules, reached: seq<Handle>, node: Handle, next: seq<Handle>, k: nat, r: seq<Handle>)
    requires InArena(rs.A, rs.nl)
  {
    && k <= |next|
    && NoDup(r) && Justified(rs, r)
    && reached <= r && |reached| < |r| && r[|reached|] == node
    && (forall i :: |reached| <= i < |r| ==> r[i] == node || r[i] in rs.nl)
    && (forall i :: 0 <= i < k ==> next[i] in r)
    && ClosedFrom(rs.A, rs.nl, r, |reached| + 1)
  }

  /** Visiting one more reader keeps `Visiting`. */
  lemma VisitingStep(rs: Rules, reached: seq<Handle>, node: Handle, next: seq<Handle>, k: nat, r: seq<Handle>, r': seq<Handle>)
    requires InArena(rs.A, rs.nl) && k < |next| && next[k] in rs.nl
    requires Visiting(rs, reached, node, next, k, r)
    requires NoDup(r') && Justified(rs, r') && r <= r' && next[k] in r'
    requires forall i :: |r| <= i < |r'| ==> r'[i] == next[k] || r'[i] in rs.nl
    requires ClosedFrom(rs.A, rs.nl, r', |r|)
    ensures Visiting(rs, reached, node, next, k + 1, r')
  {
    Grown(rs.A, rs.nl, r, r', |reached| + 1);
    forall i | 0 <= i < k + 1 ensures next[i] in r' {
      if i < k {
        assert next[i] in r;
      }
    }
  }

  /**
    * `_reachable_from_input(view, reachable, node)`: a node already reached is left alone;
    * otherwise it is appended, then each node that reads it is visited in turn.
    */
  method Visit(g: Graph, nl: seq<Handle>, reached: seq<Handle>, node: Handle, ghost rs: Rules) returns (r: seq<Handle>)
    requires InArena(g.nodes, nl) && rs.A == g.nodes && rs.nl == nl
    requires NoDup(reached) && Justified(rs, reached)
    requires node in reached || Because(rs, reached, node)
    ensures NoDup(r) && Justified(rs, r)
    ensures reached <= r && node in r
    ensures forall i :: |reached| <= i < |r| ==> r[i] == node || r[i] in nl
    ensures ClosedFrom(g.nodes, nl, r, |reached|)
    decreases |Elems(nl) + {node} - Elems(reached)|
  {
    if node in reached {
      return reached;
    }
    JustifiedAppend(rs, reached, node);
    r := reached + [node];
    var next := NodeNext(g, nl, node);
    var k := 0;
    while k < |next|
      invariant Visiting(rs, reached, node, next, k, r)
    {
      var n := next[k];
      assert node in r && n in nl && node in ConnectedTo(g.nodes[n].kind);
      assert Because(rs, r, n);
      Shrinks(Elems(nl) + {node}, Elems(nl) + {n}, Elems(reached), Elems(r), node);
      var r' := Visit(g, nl, r, n, rs);
      VisitingStep(rs, reached, node, next, k, r, r');
      r := r';
      k := k + 1;
    }
    forall n | n in nl && node in ConnectedTo(g.nodes[n].kind) ensures n in r {
      assert n in next;
    }
  }

  /** `for n in current: _reachable_from_input(view, reachable, n)`. */
  method VisitAll(g: Graph, nl: seq<Handle>, reached: seq<Handle>, current: seq<Handle>, ghost rs: Rules)
    returns (r: seq<Handle>)
    requires InArena(g.nodes, nl) && rs.A == g.nodes && rs.nl == nl
    requires NoDup(reached) && Justified(rs, reached) && ClosedFrom(g.nodes, nl, reached, 0)
    requires forall x :: x in current ==> Because(rs, reached, x)
    ensures NoDup(r) && Justified(rs, r) && ClosedFrom(g.nodes, nl, r, 0)
    ensures forall x :: x in reached ==> x in r
    ensures forall x :: x in current ==> x in r
    ensures forall x :: x in r ==> x in reached || x in current || x in nl
  {
    r := reached;
    var k := 0;
    while k < |current|
      invariant 0 <= k <= |current|
      invariant NoDup(r) && Justified(rs, r) && ClosedFrom(g.nodes, nl, r, 0)
      invariant forall x :: x in reached ==> x in r
      invariant forall i :: 0 <= i < k ==> current[i] in r
      invariant forall x :: x in r ==> x in reached || x in current || x in nl
    {
      r := VisitNext(g, nl, reached, current, r, k, rs);
      k := k + 1;
    }
  }

  /** One pass of the loop of `VisitAll`: the visit from `current[k]`. */
  method VisitNext(g: Graph, nl: seq<Handle>, reached: seq<Handle>, current: seq<Handle>, r: seq<Handle>, k: nat,
                   ghost rs: Rules) returns (r': seq<Handle>)
    requires InArena(g.nodes, nl) && rs.A == g.nodes && rs.nl == nl && k < |current|
    requires NoDup(r) && Justified(rs, r) && ClosedFrom(g.nodes, nl, r, 0)
    requires forall x :: x in reached ==> x in r
    requires forall x :: x in current ==> Because(rs, reached, x)
    requires forall x :: x in r ==> x in reached || x in current || x in nl
    ensures NoDup(r') && Justified(rs, r') && ClosedFrom(g.nodes, nl, r', 0)
    ensures forall x :: x in r ==> x in r'
    ensures current[k] in r'
    ensures forall x :: x in r' ==> x in reached || x in current || x in nl
  {
    var n := current[k];
    assert n in current;
    BecauseGrows(rs, reached, r, n);
    r' := Visit(g, nl, r, n, rs);
    Grown(g.nodes, nl, r, r', 0);
    VisitedFrom(reached, current, nl, r, r', n);
  }

  /** What a visit from `n` appends is `n` or a node of the list, so every node still comes from one of the three. */
  lemma VisitedFrom(reached: seq<Handle>, current: seq<Handle>, nl: seq<Handle>, r: seq<Handle>, r': seq<Handle>, n: Handle)
    requires r <= r' && n in current
    requires forall x :: x in r ==> x in reached || x in current || x in nl
    requires forall i :: |r| <= i < |r'| ==> r'[i] == n || r'[i] in nl
    ensures forall x :: x in r' ==> x in reached || x in current || x in nl
  {
    forall x | x in r' ensures x in reached || x in current || x in nl {
      var i :| 0 <= i < |r'| && r'[i] == x;
      if i < |r| {
        assert r[i] == x;
      }
    }
  }

  /** A set of one member is that member. */
  lemma Single(S: set<Handle>, x: Handle)
    requires |S| == 1 && x in S
    ensures S == {x}
  {
    assert |S - {x}| == 0;
  }

  /** The equation loop of a round: each EQ equation with exactly one node not yet reached names that node. */
  method Frontier(eqs: seq<Equation>, reached: seq<Handle>) returns (next: seq<Handle>)
    ensures next == [] <==> forall j :: 0 <= j < |eqs| && eqs[j].comparator == EQ ==>
                              |Unreached(EquationValues(eqs)[j], reached)| != 1
    ensures forall x :: x in next ==>
              x !in reached && exists j :: 0 <= j < |eqs| && EqForces(EquationValues(eqs)[j], reached, x)
  {
    ghost var cs := EquationValues(eqs);
    next := [];
    var j := 0;
    while j < |eqs|
      invariant 0 <= j <= |eqs| && cs == EquationValues(eqs)
      invariant next == [] <==> forall i :: 0 <= i < j && eqs[i].comparator == EQ ==> |Unreached(cs[i], reached)| != 1
      invariant forall x :: x in next ==> x !in reached && exists i :: 0 <= i < j && EqForces(cs[i], reached, x)
    {
      var e := eqs[j];
      if e.comparator == EQ {
        var notReached := set i | 0 <= i < |e.terms| && e.terms[i].1 !in reached :: e.terms[i].1;
        assert notReached == Unreached(cs[j], reached);
        if |notReached| == 1 {
          var x :| x in notReached;
          Single(notReached, x);
          assert EqForces(cs[j], reached, x);
          next := next + [x];
        }
      }
      j := j + 1;
    }
  }

  // ---------------------------------------------------------------------------
  // reachable_from_input

  /** Every node a rule can name: the view's nodes and inputs and the nodes of its equations. */
  function Universe(rs: Rules): set<Handle>
  {
    Elems(rs.nl) + Elems(rs.inputs) + set j, i | 0 <= j < |rs.eqs| && 0 <= i < |rs.eqs[j].terms| :: rs.eqs[j].terms[i].1
  }

  /** What `reachable_from_input` promises about its result `r`. */
  ghost predicate ReachFacts(rs: Rules, r: seq<Handle>)
    requires InArena(rs.A, rs.nl)
  {
    && NoDup(r) && Justified(rs, r)
    && (forall x :: x in rs.inputs ==> x in r)
    && ClosedFrom(rs.A, rs.nl, r, 0)
    && (|rs.inputs| > 0 ==> EqSettled(rs, r))
    && (|rs.inputs| == 0 ==> r == [])
  }

  /** No EQ equation is left with exactly one node outside `r`. */
  ghost predicate EqSettled(rs: Rules, r: seq<Handle>)
  {
    forall j :: 0 <= j < |rs.eqs| && rs.eqs[j].comparator == EQ ==> |Unreached(rs.eqs[j], r)| != 1
  }

  /** What holds between two rounds: `r` reached so far, `current` still to visit. */
  ghost predicate Rounding(rs: Rules, U: set<Handle>, r: seq<Handle>, current: seq<Handle>, rounds: nat)
    requires InArena(rs.A, rs.nl)
  {
    && NoDup(r) && Justified(rs, r) && ClosedFrom(rs.A, rs.nl, r, 0)
    && (forall x :: x in current ==> x !in r && Because(rs, r, x) && x in U)
    && (forall x :: x in r ==> x in U)
    && (forall x :: x in rs.inputs ==> x in r || x in current)
    && (rounds == 0 ==> current == rs.inputs)
    && (rounds > 0 && current == [] ==> EqSettled(rs, r))
  }

  /** One round keeps `Rounding` and reaches the first node of `current`. */
  lemma RoundStep(rs: Rules, U: set<Handle>, r: seq<Handle>, current: seq<Handle>, rounds: nat,
                  r': seq<Handle>, next: seq<Handle>)
    requires InArena(rs.A, rs.nl) && U == Universe(rs) && |current| > 0
    requires Rounding(rs, U, r, current, rounds)
    requires NoDup(r') && Justified(rs, r') && ClosedFrom(rs.A, rs.nl, r', 0)
    requires forall x :: x in r ==> x in r'
    requires forall x :: x in current ==> x in r'
    requires forall x :: x in r' ==> x in r || x in current || x in rs.nl
    requires next == [] <==> EqSettled(rs, r')
    requires forall x :: x in next ==> x !in r' && exists j :: 0 <= j < |rs.eqs| && EqForces(rs.eqs[j], r', x)
    ensures Rounding(rs, U, r', next, rounds + 1)
    ensures |U - Elems(r')| < |U - Elems(r)|
  {
    assert current[0] in current;
    Shrinks(U, U, Elems(r), Elems(r'), current[0]);
    forall x | x in next ensures Because(rs, r', x) && x in U {
      var j :| 0 <= j < |rs.eqs| && EqForces(rs.eqs[j], r', x);
      var i :| 0 <= i < |rs.eqs[j].terms| && rs.eqs[j].terms[i].1 == x;
    }
  }

  /**
    * `reachable_from_input(view)`: rounds of depth-first visits, from the inputs first and
    * then from the nodes the EQ equations force, until a round forces nothing. Every node
    * is listed once; the inputs are reached; every reader of a reached node is reached;
    * every node has a reason among the nodes before it; and (when there is an input, so that
    * a round runs) no EQ equation is left with exactly one node not reached.
    */
  method ReachableFromInput(g: Graph, view: ViewIO) returns (r: seq<Handle>)
    requires InArena(g.nodes, view.nodes)
    ensures ReachFacts(Rules(g.nodes, view.nodes, view.inputs, EquationValues(view.equations)), r)
  {
    ghost var rs := Rules(g.nodes, view.nodes, view.inputs, EquationValues(view.equations));
    ghost var U := Universe(rs);
    r := [];
    var current := view.inputs;
    var rounds := 0;
    forall x | x in current ensures x in U && Because(rs, r, x) { }
    while |current| > 0
      invariant Rounding(rs, U, r, current, rounds)
      invariant |view.inputs| == 0 ==> r == [] && current == []
      decreases |U - Elems(r)|
    {
      r, current := OneRound(g, view, r, current, rounds, rs, U);
      rounds := rounds + 1;
    }
    RoundingDone(rs, U, r, rounds);
  }

  /** One pass of the `while current` loop: visit the current nodes, then look for forced ones. */
  method OneRound(g: Graph, view: ViewIO, r: seq<Handle>, current: seq<Handle>, ghost rounds: nat, ghost rs: Rules,
                  ghost U: set<Handle>) returns (r': seq<Handle>, next: seq<Handle>)
    requires InArena(g.nodes, view.nodes) && |current| > 0
    requires rs == Rules(g.nodes, view.nodes, view.inputs, EquationValues(view.equations)) && U == Universe(rs)
    requires Rounding(rs, U, r, current, rounds)
    ensures Rounding(rs, U, r', next, rounds + 1)
    ensures |U - Elems(r')| < |U - Elems(r)|
  {
    RoundingVisits(rs, U, r, current, rounds);
    r' := VisitAll(g, view.nodes, r, current, rs);
    next := Frontier(view.equations, r');
    RoundStep(rs, U, r, current, rounds, r', next);
  }

  /** While rounds are running, the reached list and the current nodes meet what `VisitAll` asks. */
  lemma RoundingVisits(rs: Rules, U: set<Handle>, r: seq<Handle>, current: seq<Handle>, rounds: nat)
    requires InArena(rs.A, rs.nl) && Rounding(rs, U, r, current, rounds)
    ensures NoDup(r) && Justified(rs, r) && ClosedFrom(rs.A, rs.nl, r, 0)
    ensures forall x :: x in current ==> Because(rs, r, x)
  {
  }

  /** Once no node is left to visit, the reached list has all the facts. */
  lemma RoundingDone(rs: Rules, U: set<Handle>, r: seq<Handle>, rounds: nat)
    requires InArena(rs.A, rs.nl) && Rounding(rs, U, r, [], rounds)
    requires |rs.inputs| == 0 ==> r == []
    ensures ReachFacts(rs, r)
  {
  }

  // ---------------------------------------------------------------------------
  // The reached set is the least closed set

  /** An EQ equation of which `x` is the only node outside `S`. */
  predicate ForcedInto(c: Constraint, S: set<Handle>, x: Handle)
  {
    c.comparator == EQ && x in EqNodes(c) && EqNodes(c) - {x} <= S
  }

  /** A set that holds the inputs and is closed under the three rules. */
  ghost predicate RuleClosed(rs: Rules, S: set<Handle>)
  {
    && (forall x :: x in rs.inputs ==> x in S)
    && (forall x, y :: x in rs.nl && x < |rs.A| && y in S && y in ConnectedTo(rs.A[x].kind) ==> x in S)
    && (forall j, x :: 0 <= j < |rs.eqs| && ForcedInto(rs.eqs[j], S, x) ==> x in S)
  }

  /** A justified list lies inside every closed set. */
  lemma {:induction false} JustifiedLeast(rs: Rules, r: seq<Handle>, S: set<Handle>)
    requires Justified(rs, r) && RuleClosed(rs, S)
    ensures forall x :: x in r ==> x in S
  {
    if r != [] {
      var pre, x := r[..|r| - 1], r[|r| - 1];
      assert r == pre + [x];
      assert Justified(rs, pre) by {
        forall p | 0 <= p < |pre| ensures Because(rs, pre[..p], pre[p]) {
          assert pre[..p] == r[..p];
        }
      }
      JustifiedLeast(rs, pre, S);
      assert Because(rs, pre, x) by {
        assert r[..|r| - 1] == pre;
      }
      if exists j :: 0 <= j < |rs.eqs| && EqForces(rs.eqs[j], pre, x) {
        var j :| 0 <= j < |rs.eqs| && EqForces(rs.eqs[j], pre, x);
        forall z | z in EqNodes(rs.eqs[j]) - {x} ensures z in S {
          assert z !in Unreached(rs.eqs[j], pre);
          var i :| 0 <= i < |rs.eqs[j].terms| && rs.eqs[j].terms[i].1 == z;
        }
      }
    }
  }

  /**
    * When the view has an input, the nodes `reachable_from_input` lists are exactly the
    * least set that holds the inputs, every reader of a member, and the last node of every
    * EQ equation whose other nodes are members.
    */
  lemma ReachIsLeast(rs: Rules, r: seq<Handle>)
    requires InArena(rs.A, rs.nl) && ReachFacts(rs, r) && |rs.inputs| > 0
    ensures RuleClosed(rs, Elems(r))
    ensures forall S :: RuleClosed(rs, S) ==> Elems(r) <= S
  {
    forall x, y | x in rs.nl && x < |rs.A| && y in Elems(r) && y in ConnectedTo(rs.A[x].kind) ensures x in Elems(r) {
      var q :| 0 <= q < |r| && r[q] == y;
    }
    forall j: int, x: Handle | 0 <= j < |rs.eqs| && ForcedInto(rs.eqs[j], Elems(r), x)
      ensures x in Elems(r)
    {
      var U := Unreached(rs.eqs[j], r);
      forall z ensures z in U <==> (x !in r && z == x) {
        if z in U {
          var i :| 0 <= i < |rs.eqs[j].terms| && rs.eqs[j].terms[i].1 == z && z !in r;
          assert z in EqNodes(rs.eqs[j]) && z !in Elems(r);
        }
        if x !in r && z == x {
          var i :| 0 <= i < |rs.eqs[j].terms| && rs.eqs[j].terms[i].1 == x;
        }
      }
      assert U == if x in r then {} else {x};
    }
    forall S | RuleClosed(rs, S) ensures Elems(r) <= S {
      JustifiedLeast(rs, r, S);
    }
  }

  // ---------------------------------------------------------------------------
  // mitigate_marabou_constant_nodes_bug

  /** The solver query's input list, the list kept aside as the real inputs, and its node-to-variable table. */
  class SolverQuery {
    var inputVars: seq<int>
    var realInputs: seq<int>
    var translate: map<Handle, int>

    constructor (inputVars: seq<int>, translate: map<Handle, int>)
      ensures this.inputVars == inputVars && this.realInputs == [] && this.translate == translate
    {
      this.inputVars := inputVars;
      this.realInputs := [];
      this.translate := translate;
    }
  }

  /** The first assertion: every suspected node has equal lower and upper limits. */
  method AllFixed(g: Graph, order: seq<Handle>) returns (ok: bool)
    requires forall i :: 0 <= i < |order| ==> order[i] < |g.nodes|
    ensures ok <==> forall i :: 0 <= i < |order| ==> g.nodes[order[i]].limit.lower == g.nodes[order[i]].limit.upper
  {
    var k := 0;
    while k < |order|
      invariant 0 <= k <= |order|
      invariant forall i :: 0 <= i < k ==> g.nodes[order[i]].limit.lower == g.nodes[order[i]].limit.upper
    {
      var n := order[k];
      if g.nodes[n].limit.lower != g.nodes[n].limit.upper {
        return false;
      }
      k := k + 1;
    }
    return true;
  }

  /** `[mnn.translate[n] for n in suspected]`: a node missing from `translate` is a KeyError. */
  method ToBeAdded(order: seq<Handle>, translate: map<Handle, int>) returns (added: Option<seq<int>>)
    ensures added.Some? <==> forall i :: 0 <= i < |order| ==> order[i] in translate
    ensures added.Some? ==> |added.value| == |order|
    ensures added.Some? ==> forall i :: 0 <= i < |order| ==> added.value[i] == translate[order[i]]
  {
    var acc: seq<int> := [];
    var k := 0;
    while k < |order|
      invariant 0 <= k <= |order| && |acc| == k
      invariant forall i :: 0 <= i < k ==> order[i] in translate && acc[i] == translate[order[i]]
    {
      var n := order[k];
      if n !in translate {
        return None;
      }
      acc := acc + [translate[n]];
      k := k + 1;
    }
    return Some(acc);
  }

  /** The second assertion: none of the new variables is already an input. */
  method NoneOld(added: seq<int>, oldInput: seq<int>) returns (ok: bool)
    ensures ok <==> forall i :: 0 <= i < |added| ==> added[i] !in oldInput
  {
    var k := 0;
    while k < |added|
      invariant 0 <= k <= |added|
      invariant forall i :: 0 <= i < k ==> added[i] !in oldInput
    {
      if added[k] in oldInput {
        return false;
      }
      k := k + 1;
    }
    return true;
  }

  /** The unreached nodes of the view, once each: the `suspected` set drawn in some order. */
  method Suspected(g: Graph, view: ViewIO) returns (order: seq<Handle>, ghost reached: seq<Handle>)
    requires InArena(g.nodes, view.nodes)
    ensures ReachFacts(Rules(g.nodes, view.nodes, view.inputs, EquationValues(view.equations)), reached)
    ensures forall n :: n in order <==> n in Elems(view.nodes) - Elems(reached)
    ensures |order| == |Elems(view.nodes) - Elems(reached)|
    ensures forall i :: 0 <= i < |order| ==> order[i] < |g.nodes|
  {
    var found := ReachableFromInput(g, view);
    reached := found;
    order := Enumerate(Elems(view.nodes) - Elems(found));
    forall i | 0 <= i < |order| ensures order[i] < |g.nodes| {
      assert order[i] in order;
      assert order[i] in view.nodes;
    }
  }

  /** The variables added are those of the suspected nodes, and none is an old input. */
  lemma AddedFacts(order: seq<Handle>, S: set<Handle>, translate: map<Handle, int>, added: seq<int>, oldInput: seq<int>)
    requires forall n :: n in S <==> n in order
    requires |added| == |order| && forall i :: 0 <= i < |order| ==> order[i] in translate && added[i] == translate[order[i]]
    requires forall i :: 0 <= i < |added| ==> added[i] !in oldInput
    ensures forall v :: v in added <==> exists n :: n in S && n in translate && translate[n] == v
    ensures forall n :: n in S ==> n in translate && translate[n] !in oldInput
  {
    forall v ensures v in added <==> exists n :: n in S && n in translate && translate[n] == v {
      if v in added {
        var i :| 0 <= i < |added| && added[i] == v;
        assert order[i] in S;
      }
      if exists n :: n in S && n in translate && translate[n] == v {
        var n :| n in S && n in translate && translate[n] == v;
        var i :| 0 <= i < |order| && order[i] == n;
        assert added[i] == v;
      }
    }
    forall n | n in S ensures n in translate && translate[n] !in oldInput {
      var i :| 0 <= i < |order| && order[i] == n;
      assert added[i] == translate[n];
    }
  }

  /**
    * The verdict of the two assertions and the `translate` lookups of
    * `mitigate_marabou_constant_nodes_bug`, in the order the source runs them, over the
    * set `S` of suspected nodes.
    */
  function MitigationVerdict(A: seq<Node>, S: set<Handle>, translate: map<Handle, int>, inputs: seq<int>): (r: Outcome<Fault>)
    requires forall n :: n in S ==> n < |A|
    ensures r.Pass? <==> && (forall n :: n in S ==> A[n].limit.lower == A[n].limit.upper)
                         && (forall n :: n in S ==> n in translate && translate[n] !in inputs)
    ensures r.Failed? ==> r.error in {UnsupportedTopology, IndexOutOfRange, BadArgument}
  {
    if exists n :: n in S && A[n].limit.lower != A[n].limit.upper then Failed(UnsupportedTopology)
    else if exists n :: n in S && n !in translate then Failed(IndexOutOfRange)
    else if exists n :: n in S && n in translate && translate[n] in inputs then Failed(BadArgument)
    else Pass
  }

  /**
    * The part of `mitigate_marabou_constant_nodes_bug` after the suspected nodes are known,
    * `order` listing the set `S`: the limit assertion, the `translate` lookups, the
    * assertion that no variable is an input already, and the rebinding of the inputs.
    */
  method AppendSuspected(g: Graph, order: seq<Handle>, ghost S: set<Handle>, q: SolverQuery) returns (res: Outcome<Fault>)
    requires forall n :: n in S <==> n in order
    requires forall i :: 0 <= i < |order| ==> order[i] < |g.nodes|
    modifies q
    ensures res == MitigationVerdict(g.nodes, S, old(q.translate), old(q.inputVars))
    ensures res.Pass? ==> && q.realInputs == old(q.inputVars)
                          && |q.inputVars| == |old(q.inputVars)| + |order|
                          && q.inputVars[..|old(q.inputVars)|] == old(q.inputVars)
                          && forall v :: v in q.inputVars[|old(q.inputVars)|..] <==>
                               exists n :: n in S && old(q.translate)[n] == v
    ensures res.Failed? ==> q.inputVars == old(q.inputVars) && q.realInputs == old(q.realInputs)
    ensures q.translate == old(q.translate)
  {
    var fixed := AllFixed(g, order);
    if !fixed {
      var i :| 0 <= i < |order| && g.nodes[order[i]].limit.lower != g.nodes[order[i]].limit.upper;
      assert order[i] in S;
      return Failed(UnsupportedTopology);
    }
    assert forall n :: n in S ==> g.nodes[n].limit.lower == g.nodes[n].limit.upper;
    var oldInput := q.inputVars;
    var added := ToBeAdded(order, q.translate);
    if added.None? {
      var i :| 0 <= i < |order| && order[i] !in q.translate;
      assert order[i] in S;
      return Failed(IndexOutOfRange);
    }
    assert forall n :: n in S ==> n in q.translate;
    var unseen := NoneOld(added.value, oldInput);
    if !unseen {
      var i :| 0 <= i < |added.value| && added.value[i] in oldInput;
      assert order[i] in S && order[i] in q.translate && q.translate[order[i]] in oldInput;
      return Failed(BadArgument);
    }
    AddedFacts(order, S, q.translate, added.value, oldInput);
    q.inputVars := oldInput + added.value;
    q.realInputs := oldInput;
    assert q.inputVars[|oldInput|..] == added.value;
    return Pass;
  }

  /**
    * `mitigate_marabou_constant_nodes_bug(view, mnn)`: every node of the view that is not
    * reached must have equal lower and upper limits (both absent counts as equal); their
    * variables, none of them already an input, are appended to the input list, and the old
    * list is kept as `realInputs`. A node missing from `translate` raises KeyError.
    */
  method Mitigate(g: Graph, view: ViewIO, q: SolverQuery) returns (res: Outcome<Fault>, ghost reached: seq<Handle>)
    requires InArena(g.nodes, view.nodes)
    modifies q
    ensures ReachFacts(Rules(g.nodes, view.nodes, view.inputs, EquationValues(view.equations)), reached)
    ensures res == MitigationVerdict(g.nodes, Elems(view.nodes) - Elems(reached), old(q.translate), old(q.inputVars))
    ensures res.Pass? ==> && q.realInputs == old(q.inputVars)
                          && |q.inputVars| == |old(q.inputVars)| + |Elems(view.nodes) - Elems(reached)|
                          && q.inputVars[..|old(q.inputVars)|] == old(q.inputVars)
                          && forall v :: v in q.inputVars[|old(q.inputVars)|..] <==>
                               exists n :: n in Elems(view.nodes) - Elems(reached) && old(q.translate)[n] == v
    ensures res.Failed? ==> q.inputVars == old(q.inputVars) && q.realInputs == old(q.realInputs)
    ensures q.translate == old(q.translate)
  {
    var order;
    order, reached := Suspected(g, view);
    res := AppendSuspected(g, order, Elems(view.nodes) - Elems(reached), q);
  }
}
