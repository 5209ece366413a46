/**
  * `apply_subspace` of the basic example: restricts the input box of a network to one
  * cell of a regular subdivision. The subspace is a string of digits read in chunks of
  * one digit per input; digit `ch` of a chunk keeps the `ch`-th of SPLIT equal parts of
  * that input's current interval, so every chunk subdivides inside the previous choice.
  *
  * Steps are numbered in the order the nested loops take them; a counter that cycles
  * through 0..n-1 (n inputs) says which input a step updates, as `zip` does per chunk.
  */
module Subspace {
  import opened Wrappers
  import opened Nodes
  import Text

  /** Into how many equal parts one digit divides an interval. */
  const SPLIT: int := 2

  /** Both ends known and in order: what a step needs to compute a part. */
  predicate Bounded(lim: Limit)
  {
    lim.lower.Some? && lim.upper.Some? && lim.lower.value <= lim.upper.value
  }

  /** `int(c)` of one character of the subspace string. */
  function DigitOf(c: char): Option<int>
  {
    Text.ParseInt([c])
  }

  /** A single character reads as a number exactly when it is a decimal digit. */
  lemma DigitOfChar(c: char)
    ensures DigitOf(c) == if Text.IsDigit(c) then Some(c as int - '0' as int) else None
  {
    var s := [c];
    if Text.IsSpace(c) {
      assert Text.StripLeft(s) == [];
      assert Text.Strip(s) == [];
    } else {
      assert Text.Strip(s) == s by {
        assert Text.Trimmed(s);
        Text.StripTrimmed(s);
      }
      if c == '-' || c == '+' {
        assert Text.Unsigned(s).0 == [];
      } else {
        assert Text.Unsigned(s) == (s, false);
        if Text.IsDigit(c) {
          assert s[..0] == [];
          assert Text.DigitsValue(s) == c as int - '0' as int;
        }
      }
    }
  }

  /** `list(map(int, subspace))`: None where one character is not a number. */
  function ParseDigits(s: string): (r: Option<seq<int>>)
    ensures r.Some? ==> |r.value| == |s| && forall i :: 0 <= i < |s| ==> 0 <= r.value[i] < 10
  {
    if s == [] then Some([])
    else
      DigitOfChar(s[0]);
      match DigitOf(s[0])
      case None => None
      case Some(d) =>
        match ParseDigits(s[1..])
        case None => None
        case Some(ds) => Some([d] + ds)
  }

  /** The digits read are the characters' values, and reading fails on any non-digit. */
  lemma {:induction false} ParseDigitsMeaning(s: string)
    ensures ParseDigits(s).Some? <==> Text.AllDigits(s)
    ensures ParseDigits(s).Some? ==>
              forall i :: 0 <= i < |s| ==> ParseDigits(s).value[i] == s[i] as int - '0' as int
  {
    if s != [] {
      DigitOfChar(s[0]);
      ParseDigitsMeaning(s[1..]);
      assert Text.AllDigits(s) <==> Text.IsDigit(s[0]) && Text.AllDigits(s[1..]) by {
        if Text.IsDigit(s[0]) && Text.AllDigits(s[1..]) {
          forall i | 0 <= i < |s| ensures Text.IsDigit(s[i]) {
            if i > 0 { assert s[i] == s[1..][i - 1]; }
          }
        }
        if Text.AllDigits(s) {
          forall i | 0 <= i < |s| - 1 ensures Text.IsDigit(s[1..][i]) {
            assert s[1..][i] == s[i + 1];
          }
        }
      }
    }
  }

  /** `n` units of width `w` laid end to end (none for n <= 0). */
  function Units(n: int, w: real): real
    decreases n
  {
    if n <= 0 then 0.0 else Units(n - 1, w) + w
  }

  /**
    * One step of the inner loop on an input with interval `lim`: the digit must be below
    * SPLIT (AssertionError), both ends must be known (a TypeError on None), and the part
    * is applied with `updateLimit`, which stores it before asserting it is not empty.
    */
  function Step(lim: Limit, ch: int): (Limit, Outcome<Fault>)
  {
    if ch >= SPLIT then (lim, Failed(BadArgument))
    else if lim.lower.None? || lim.upper.None? then (lim, Failed(BadArgument))
    else
      var l, u := lim.lower.value, lim.upper.value;
      var chsz := (u - l) / SPLIT as real;
      var lo, hi := Some(l + Units(ch, chsz)), Some(l + Units(ch + 1, chsz));
      var r := Narrow(lim, lo, hi);
      (r, if LimitAccepted(r, lo, hi) then Pass else Failed(InvalidBounds))
  }

  /** The lower half of a known interval for bit 0, the upper half otherwise. */
  function Half(lim: Limit, bit: int): Limit
  {
    if !Bounded(lim) then lim
    else
      var l, u := lim.lower.value, lim.upper.value;
      var m := l + (u - l) / 2.0;
      if bit == 0 then Limit(Some(l), Some(m)) else Limit(Some(m), Some(u))
  }

  /**
    * A digit below SPLIT names a part inside a known interval, so `updateLimit` yields
    * exactly that part: it starts `ch` parts above the lower end and is one part wide.
    */
  lemma StepPart(lim: Limit, ch: int)
    requires Bounded(lim) && 0 <= ch < SPLIT
    ensures Step(lim, ch).1 == Pass
    ensures Step(lim, ch).0 == Half(lim, ch)
    ensures Bounded(Step(lim, ch).0)
  {
    var l, u := lim.lower.value, lim.upper.value;
    var c := (u - l) / 2.0;
    assert SPLIT as real == 2.0;
    assert 0.0 <= c && l + c + c == u;
    if ch == 0 {
      assert Step(lim, ch).0 == Narrow(lim, Some(l), Some(l + c));
      assert Narrow(lim, Some(l), Some(l + c)) == Limit(Some(l), Some(l + c));
      assert Units(ch, c) == 0.0 && Units(ch + 1, c) == c;
    } else {
      assert Step(lim, ch).0 == Narrow(lim, Some(l + c), Some(l + c + c));
      assert Narrow(lim, Some(l + c), Some(l + c + c)) == Limit(Some(l + c), Some(l + c + c));
      assert ch == 1 && Units(ch, c) == c && Units(ch + 1, c) == c + c;
    }
  }

  /** A step fails on a digit of SPLIT or more, on an unknown end, and on an empty interval. */
  lemma StepFails(lim: Limit, ch: int)
    requires 0 <= ch
    ensures Step(lim, ch).1 == Pass <==> ch < SPLIT && Bounded(lim)
  {
    if ch < SPLIT && lim.lower.Some? && lim.upper.Some? && lim.lower.value > lim.upper.value {
      var l, u := lim.lower.value, lim.upper.value;
      var r := Step(lim, ch).0;
      assert r.lower.value >= l && r.upper.value <= u;
    }
  }

  /** The input counter after step `j` of a chunk of `n`. */
  function Next(j: nat, n: nat): nat
  {
    if j + 1 == n then 0 else j + 1
  }

  /**
    * The steps from step `t` on, where input `inputs[j]` takes digit `ds[t]`: the arena
    * they leave behind, and the first failure. A failing step keeps what it stored.
    */
  function Steps(nodes: seq<Node>, inputs: seq<Handle>, ds: seq<int>, t: nat, j: nat): (r: (seq<Node>, Outcome<Fault>))
    requires j < |inputs| && t <= |ds|
    requires forall i :: 0 <= i < |inputs| ==> inputs[i] < |nodes|
    ensures |r.0| == |nodes|
    decreases |ds| - t
  {
    if t == |ds| then (nodes, Pass)
    else
      var h := inputs[j];
      var (lim, o) := Step(nodes[h].limit, ds[t]);
      var after := nodes[h := nodes[h].(limit := lim)];
      if o.Failed? then (after, o) else Steps(after, inputs, ds, t + 1, Next(j, |inputs|))
  }

  /** `apply_subspace(io, subspace)` on the arena, with the inputs of the view `io`. */
  function Subspace(nodes: seq<Node>, inputs: seq<Handle>, subspace: string): (r: (seq<Node>, Outcome<Fault>))
    requires forall i :: 0 <= i < |inputs| ==> inputs[i] < |nodes|
    ensures |r.0| == |nodes|
  {
    if |inputs| == 0 then (nodes, Failed(BadArgument))               // ZeroDivisionError in `%`
    else if |subspace| % |inputs| != 0 then (nodes, Failed(BadArgument))
    else
      match ParseDigits(subspace)
      case None => (nodes, Failed(Malformed))
      case Some(ds) => Steps(nodes, inputs, ds, 0, 0)
  }

  /** The steps change only limits, and only those of the inputs. */
  lemma {:induction false} StepsFrame(nodes: seq<Node>, inputs: seq<Handle>, ds: seq<int>, t: nat, j: nat, h: Handle)
    requires j < |inputs| && t <= |ds|
    requires forall i :: 0 <= i < |inputs| ==> inputs[i] < |nodes|
    requires h < |nodes|
    ensures var r := Steps(nodes, inputs, ds, t, j).0;
            r[h].kind == nodes[h].kind && r[h].name == nodes[h].name
            && (h !in inputs ==> r[h] == nodes[h])
    decreases |ds| - t
  {
    if t < |ds| {
      var g := inputs[j];
      var (lim, o) := Step(nodes[g].limit, ds[t]);
      var after := nodes[g := nodes[g].(limit := lim)];
      if o.Pass? {
        StepsFrame(after, inputs, ds, t + 1, Next(j, |inputs|), h);
      }
    }
  }

  /** With digits below SPLIT and every input bounded, all the steps go through. */
  lemma {:induction false} StepsPass(nodes: seq<Node>, inputs: seq<Handle>, ds: seq<int>, t: nat, j: nat)
    requires j < |inputs| && t <= |ds|
    requires forall i :: 0 <= i < |inputs| ==> inputs[i] < |nodes|
    requires forall i :: t <= i < |ds| ==> 0 <= ds[i] < SPLIT
    requires forall i :: 0 <= i < |inputs| ==> Bounded(nodes[inputs[i]].limit)
    ensures Steps(nodes, inputs, ds, t, j).1 == Pass
    decreases |ds| - t
  {
    if t < |ds| {
      var g := inputs[j];
      StepPart(nodes[g].limit, ds[t]);
      var after := nodes[g := nodes[g].(limit := Step(nodes[g].limit, ds[t]).0)];
      assert forall i :: 0 <= i < |inputs| ==> Bounded(after[inputs[i]].limit);
      StepsPass(after, inputs, ds, t + 1, Next(j, |inputs|));
    }
  }

  /** Steps that all go through read only digits below SPLIT. */
  lemma {:induction false} PassedDigits(nodes: seq<Node>, inputs: seq<Handle>, ds: seq<int>, t: nat, j: nat)
    requires j < |inputs| && t <= |ds|
    requires forall i :: 0 <= i < |inputs| ==> inputs[i] < |nodes|
    requires forall i :: t <= i < |ds| ==> 0 <= ds[i]
    requires Steps(nodes, inputs, ds, t, j).1 == Pass
    ensures forall i :: t <= i < |ds| ==> ds[i] < SPLIT
    decreases |ds| - t
  {
    if t < |ds| {
      var g := inputs[j];
      StepFails(nodes[g].limit, ds[t]);
      var after := nodes[g := nodes[g].(limit := Step(nodes[g].limit, ds[t]).0)];
      PassedDigits(after, inputs, ds, t + 1, Next(j, |inputs|));
    }
  }

  /**
    * Steps that all go through found every input they reach bounded: the input `d` steps
    * ahead within the current chunk was bounded to begin with.
    */
  lemma {:induction false} PassedBounded(nodes: seq<Node>, inputs: seq<Handle>, ds: seq<int>, t: nat, j: nat, d: nat)
    requires j + d < |inputs| && t + d < |ds|
    requires forall i :: 0 <= i < |inputs| ==> inputs[i] < |nodes|
    requires forall i :: t <= i < |ds| ==> 0 <= ds[i]
    requires Steps(nodes, inputs, ds, t, j).1 == Pass
    ensures Bounded(nodes[inputs[j + d]].limit)
    decreases d
  {
    var g := inputs[j];
    StepFails(nodes[g].limit, ds[t]);
    if d > 0 {
      var after := nodes[g := nodes[g].(limit := Step(nodes[g].limit, ds[t]).0)];
      assert Next(j, |inputs|) == j + 1;
      PassedBounded(after, inputs, ds, t + 1, j + 1, d - 1);
    }
  }

  /**
    * What `apply_subspace` accepts: there is an input, the length is a multiple of their
    * number, every character is a digit below SPLIT, and (unless the string is empty)
    * every input has a known, non-empty interval.
    */
  predicate Acceptable(nodes: seq<Node>, inputs: seq<Handle>, subspace: string)
    requires forall i :: 0 <= i < |inputs| ==> inputs[i] < |nodes|
  {
    && |inputs| > 0
    && |subspace| % |inputs| == 0
    && (forall i :: 0 <= i < |subspace| ==> '0' <= subspace[i] && subspace[i] as int - '0' as int < SPLIT)
    && (|subspace| > 0 ==> forall i :: 0 <= i < |inputs| ==> Bounded(nodes[inputs[i]].limit))
  }

  lemma AcceptedPasses(nodes: seq<Node>, inputs: seq<Handle>, subspace: string)
    requires forall i :: 0 <= i < |inputs| ==> inputs[i] < |nodes|
    requires Acceptable(nodes, inputs, subspace)
    ensures Subspace(nodes, inputs, subspace).1 == Pass
  {
    AcceptedDigits(subspace);
    var ds := ParseDigits(subspace).value;
    SubspaceRuns(nodes, inputs, subspace);
    if |ds| > 0 {
      StepsPass(nodes, inputs, ds, 0, 0);
    }
  }

  /** Characters '0' up to SPLIT - 1 read as digits below SPLIT. */
  lemma AcceptedDigits(subspace: string)
    requires forall i :: 0 <= i < |subspace| ==> '0' <= subspace[i] && subspace[i] as int - '0' as int < SPLIT
    ensures ParseDigits(subspace).Some?
    ensures forall i :: 0 <= i < |subspace| ==> ParseDigits(subspace).value[i] < SPLIT
  {
    ParseDigitsMeaning(subspace);
    assert Text.AllDigits(subspace) by {
      forall i | 0 <= i < |subspace| ensures Text.IsDigit(subspace[i]) {
        assert '0' <= subspace[i] && subspace[i] as int - '0' as int < SPLIT;
      }
    }
  }

  /** Past the checks on the lengths and the characters, `apply_subspace` is the steps over the digits. */
  lemma SubspaceRuns(nodes: seq<Node>, inputs: seq<Handle>, subspace: string)
    requires forall i :: 0 <= i < |inputs| ==> inputs[i] < |nodes|
    requires |inputs| > 0 && |subspace| % |inputs| == 0 && ParseDigits(subspace).Some?
    ensures Subspace(nodes, inputs, subspace) == Steps(nodes, inputs, ParseDigits(subspace).value, 0, 0)
  {
  }

  lemma PassedAccepted(nodes: seq<Node>, inputs: seq<Handle>, subspace: string)
    requires forall i :: 0 <= i < |inputs| ==> inputs[i] < |nodes|
    requires Subspace(nodes, inputs, subspace).1 == Pass
    ensures Acceptable(nodes, inputs, subspace)
  {
    SubspacePassed(nodes, inputs, subspace);
    var ds := ParseDigits(subspace).value;
    PassedDigits(nodes, inputs, ds, 0, 0);
    DigitsBelow(subspace);
    if |subspace| > 0 {
      MultipleAtLeast(|ds|, |inputs|);
      PassedAllBounded(nodes, inputs, ds);
    }
  }

  /** A run that goes through got past the checks on the lengths and the characters. */
  lemma SubspacePassed(nodes: seq<Node>, inputs: seq<Handle>, subspace: string)
    requires forall i :: 0 <= i < |inputs| ==> inputs[i] < |nodes|
    requires Subspace(nodes, inputs, subspace).1 == Pass
    ensures |inputs| > 0 && |subspace| % |inputs| == 0 && ParseDigits(subspace).Some?
    ensures Steps(nodes, inputs, ParseDigits(subspace).value, 0, 0).1 == Pass
  {
  }

  /** Steps over a whole first chunk that all go through found every input bounded. */
  lemma PassedAllBounded(nodes: seq<Node>, inputs: seq<Handle>, ds: seq<int>)
    requires 0 < |inputs| <= |ds|
    requires forall i :: 0 <= i < |inputs| ==> inputs[i] < |nodes|
    requires forall i :: 0 <= i < |ds| ==> 0 <= ds[i]
    requires Steps(nodes, inputs, ds, 0, 0).1 == Pass
    ensures forall i :: 0 <= i < |inputs| ==> Bounded(nodes[inputs[i]].limit)
  {
    forall i | 0 <= i < |inputs| ensures Bounded(nodes[inputs[i]].limit) {
      PassedBounded(nodes, inputs, ds, 0, 0, i);
    }
  }

  /** Digits read below SPLIT come from characters '0' up to SPLIT - 1. */
  lemma DigitsBelow(subspace: string)
    requires ParseDigits(subspace).Some?
    requires forall i :: 0 <= i < |subspace| ==> ParseDigits(subspace).value[i] < SPLIT
    ensures forall i :: 0 <= i < |subspace| ==> '0' <= subspace[i] && subspace[i] as int - '0' as int < SPLIT
  {
    ParseDigitsMeaning(subspace);
  }

  /** `apply_subspace` succeeds exactly on the arguments it accepts. */
  lemma SubspaceOutcome(nodes: seq<Node>, inputs: seq<Handle>, subspace: string)
    requires forall i :: 0 <= i < |inputs| ==> inputs[i] < |nodes|
    ensures Subspace(nodes, inputs, subspace).1 == Pass <==> Acceptable(nodes, inputs, subspace)
  {
    if Subspace(nodes, inputs, subspace).1 == Pass {
      PassedAccepted(nodes, inputs, subspace);
    }
    if Acceptable(nodes, inputs, subspace) {
      AcceptedPasses(nodes, inputs, subspace);
    }
  }

  // ---------------------------------------------------------------------------
  // Where each input ends up

  /** The digits that the steps from `t` on apply to input `col`, in order. */
  function Column(ds: seq<int>, n: nat, col: nat, t: nat, j: nat): seq<int>
    requires t <= |ds|
    decreases |ds| - t
  {
    if t == |ds| then []
    else (if j == col then [ds[t]] else []) + Column(ds, n, col, t + 1, Next(j, n))
  }

  /** The interval after applying the digits `bits`, one step each. */
  function Halves(lim: Limit, bits: seq<int>): Limit
    decreases |bits|
  {
    if bits == [] then lim else Halves(Half(lim, bits[0]), bits[1..])
  }

  /** Within one chunk, input `col` takes the digit at its own position, then the next chunks follow. */
  lemma {:induction false} ColumnWithin(ds: seq<int>, n: nat, col: nat, t: nat, j: nat)
    requires col < n && j < n && t + n - j <= |ds|
    ensures Column(ds, n, col, t, j)
         == (if j <= col then [ds[t + col - j]] else []) + Column(ds, n, col, t + n - j, 0)
    decreases n - j
  {
    if j + 1 < n {
      ColumnWithin(ds, n, col, t + 1, j + 1);
    }
  }

  /** k whole chunks give every input k digits. */
  lemma {:induction false} ColumnCount(ds: seq<int>, n: nat, col: nat, t: nat, k: nat)
    requires col < n && |ds| == t + k * n
    ensures |Column(ds, n, col, t, 0)| == k
    decreases k
  {
    if k > 0 {
      assert |ds| == (t + n) + (k - 1) * n;
      ColumnWithin(ds, n, col, t, 0);
      ColumnCount(ds, n, col, t + n, k - 1);
    }
  }

  /**
    * With distinct inputs, steps that go through leave each input with the interval its
    * own column of digits selects, whatever the steps on the other inputs do.
    */
  lemma {:induction false} StepsColumns(nodes: seq<Node>, inputs: seq<Handle>, ds: seq<int>, t: nat, j: nat, col: nat)
    requires j < |inputs| && t <= |ds| && col < |inputs|
    requires forall i :: 0 <= i < |inputs| ==> inputs[i] < |nodes|
    requires forall a, b :: 0 <= a < b < |inputs| ==> inputs[a] != inputs[b]
    requires forall i :: t <= i < |ds| ==> 0 <= ds[i]
    requires Steps(nodes, inputs, ds, t, j).1 == Pass
    ensures Steps(nodes, inputs, ds, t, j).0[inputs[col]].limit
         == Halves(nodes[inputs[col]].limit, Column(ds, |inputs|, col, t, j))
    decreases |ds| - t
  {
    if t < |ds| {
      var g := inputs[j];
      var after := nodes[g := nodes[g].(limit := Step(nodes[g].limit, ds[t]).0)];
      StepsColumns(after, inputs, ds, t + 1, Next(j, |inputs|), col);
      var rest := Column(ds, |inputs|, col, t + 1, Next(j, |inputs|));
      if j == col {
        StepFails(nodes[g].limit, ds[t]);
        StepPart(nodes[g].limit, ds[t]);
        assert Column(ds, |inputs|, col, t, j) == [ds[t]] + rest;
        assert ([ds[t]] + rest)[1..] == rest;
      } else {
        assert Column(ds, |inputs|, col, t, j) == rest;
        assert inputs[col] != g;
      }
    }
  }

  function Pow2(k: nat): (r: nat)
    ensures r >= 1
  {
    if k == 0 then 1 else 2 * Pow2(k - 1)
  }

  /** The digits read as a binary number, first digit most significant. */
  function Binary(bits: seq<int>): int
  {
    if bits == [] then 0 else 2 * Binary(bits[..|bits| - 1]) + bits[|bits| - 1]
  }

  /** A string of bits names one of the 2^k parts. */
  lemma {:induction false} BinaryRange(bits: seq<int>)
    requires forall i :: 0 <= i < |bits| ==> 0 <= bits[i] < SPLIT
    ensures 0 <= Binary(bits) < Pow2(|bits|)
  {
    if bits != [] {
      BinaryRange(bits[..|bits| - 1]);
    }
  }

  /** The first bit counts for half of the 2^k parts. */
  lemma {:induction false} BinaryFirst(bits: seq<int>)
    requires bits != [] && 0 <= bits[0] < SPLIT
    ensures Binary(bits) == (if bits[0] == 0 then 0 else Pow2(|bits| - 1)) + Binary(bits[1..])
  {
    if |bits| > 1 {
      var init := bits[..|bits| - 1];
      BinaryFirst(init);
      assert init[1..] == bits[1..][..|bits| - 2];
      assert init[0] == bits[0];
    }
  }

  lemma {:induction false} UnitsAdd(a: nat, b: nat, w: real)
    ensures Units(a + b, w) == Units(a, w) + Units(b, w)
    decreases b
  {
    if b > 0 {
      UnitsAdd(a, b - 1, w);
    }
  }

  lemma {:induction false} UnitsProduct(n: nat, w: real)
    ensures Units(n, w) == n as real * w
    decreases n
  {
    if n > 0 {
      UnitsProduct(n - 1, w);
      assert (n - 1) as real * w + w == n as real * w;
    }
  }

  /**
    * Starting from an interval of 2^k units, k digits below SPLIT select the unit numbered
    * by the digits read in binary.
    */
  lemma {:induction false} HalvesUnits(l: real, w: real, bits: seq<int>)
    requires 0.0 <= w
    requires forall i :: 0 <= i < |bits| ==> 0 <= bits[i] < SPLIT
    ensures Halves(Limit(Some(l), Some(l + Units(Pow2(|bits|), w))), bits)
         == Limit(Some(l + Units(Binary(bits), w)), Some(l + Units(Binary(bits) + 1, w)))
    decreases |bits|
  {
    if bits == [] {
      NoBitsUnits(l, w);
    } else {
      var rest := bits[1..];
      var c := Units(Pow2(|rest|), w);
      var l1 := if bits[0] == 0 then l else l + c;
      assert |rest| == |bits| - 1;
      var lim1 := Limit(Some(l1), Some(l1 + c));
      FirstHalf(l, w, bits);
      assert Halves(Limit(Some(l), Some(l + Units(Pow2(|bits|), w))), bits) == Halves(lim1, rest);
      DigitsTail(bits);
      HalvesUnits(l1, w, rest);
      assert Halves(lim1, rest)
          == Limit(Some(l1 + Units(Binary(rest), w)), Some(l1 + Units(Binary(rest) + 1, w)));
      FirstBitUnits(l, w, bits);
    }
  }

  /** With no digits the interval of one unit is left as it is. */
  lemma NoBitsUnits(l: real, w: real)
    ensures Halves(Limit(Some(l), Some(l + Units(Pow2(0), w))), [])
         == Limit(Some(l + Units(Binary([]), w)), Some(l + Units(Binary([]) + 1, w)))
  {
    assert Units(1, w) == Units(0, w) + w;
  }

  /** The first digit picks the lower or the upper half of an interval of 2^k units. */
  lemma FirstHalf(l: real, w: real, bits: seq<int>)
    requires 0.0 <= w && bits != []
    ensures var c := Units(Pow2(|bits| - 1), w);
      var l1 := if bits[0] == 0 then l else l + c;
      Halves(Limit(Some(l), Some(l + Units(Pow2(|bits|), w))), bits)
        == Halves(Limit(Some(l1), Some(l1 + c)), bits[1..])
  {
    var k := |bits| - 1;
    var c := Units(Pow2(k), w);
    assert Pow2(|bits|) == Pow2(k) + Pow2(k);
    UnitsAdd(Pow2(k), Pow2(k), w);
    UnitsNonNegative(Pow2(k), w);
    HalfOfTwo(l, c, bits[0]);
  }

  /** The digits after the first are below SPLIT when all of them are. */
  lemma DigitsTail(bits: seq<int>)
    requires bits != [] && forall i :: 0 <= i < |bits| ==> 0 <= bits[i] < SPLIT
    ensures forall i :: 0 <= i < |bits| - 1 ==> 0 <= bits[1..][i] < SPLIT
  {
    forall i | 0 <= i < |bits| - 1
      ensures 0 <= bits[1..][i] < SPLIT
    {
      assert bits[1..][i] == bits[i + 1];
    }
  }

  /** The unit the remaining bits select, counted from the half the first bit selects. */
  lemma FirstBitUnits(l: real, w: real, bits: seq<int>)
    requires bits != [] && forall i :: 0 <= i < |bits| ==> 0 <= bits[i] < SPLIT
    ensures var c := Units(Pow2(|bits| - 1), w);
      var l1 := if bits[0] == 0 then l else l + c;
      && l1 + Units(Binary(bits[1..]), w) == l + Units(Binary(bits), w)
      && l1 + Units(Binary(bits[1..]) + 1, w) == l + Units(Binary(bits) + 1, w)
  {
    var rest := bits[1..];
    var p' := Pow2(|rest|);
    BinaryRange(rest);
    BinaryFirst(bits);
    var B := Binary(rest);
    if bits[0] != 0 {
      assert Binary(bits) == p' + B;
      UnitsAdd(p', B, w);
      UnitsAdd(p', B + 1, w);
    }
  }

  /** Halving an interval two widths `c` wide keeps the lower or the upper width. */
  lemma HalfOfTwo(l: real, c: real, b: int)
    requires 0.0 <= c
    ensures Half(Limit(Some(l), Some(l + (c + c))), b)
         == (if b == 0 then Limit(Some(l), Some(l + c)) else Limit(Some(l + c), Some(l + c + c)))
  {
    assert (l + (c + c) - l) / 2.0 == c;
  }

  lemma Divided(x: real, d: real)
    requires 0.0 < d
    ensures d * (x / d) == x
    ensures 0.0 <= x ==> 0.0 <= x / d
  {
  }

  /** A positive multiple of n is at least n. */
  lemma MultipleAtLeast(k: nat, n: nat)
    requires 0 < n && 0 < k && k % n == 0
    ensures n <= k
  {
  }

  lemma {:induction false} UnitsNonNegative(a: int, w: real)
    requires 0.0 <= w
    ensures 0.0 <= Units(a, w)
    decreases a
  {
    if a > 0 {
      UnitsNonNegative(a - 1, w);
    }
  }

  /** More units of a non-negative width reach further. */
  lemma {:induction false} UnitsMonotone(a: int, b: int, w: real)
    requires a <= b && 0.0 <= w
    ensures Units(a, w) <= Units(b, w)
    decreases b - a
  {
    if a < b {
      UnitsMonotone(a, b - 1, w);
      if b <= 0 {
        assert Units(b, w) == 0.0 && Units(b - 1, w) == 0.0;
      }
    }
  }

  /** Part number `Binary(bits)` of the 2^k equal parts of [l, u], k the number of digits. */
  function Part(l: real, u: real, bits: seq<int>): Limit
  {
    var w := (u - l) / Pow2(|bits|) as real;
    Limit(Some(l + Units(Binary(bits), w)), Some(l + Units(Binary(bits) + 1, w)))
  }

  /**
    * k digits below SPLIT select, out of the 2^k equal parts of a known interval, the part
    * numbered by the digits read in binary; it lies inside the interval.
    */
  lemma HalvesClosed(l: real, u: real, bits: seq<int>)
    requires l <= u
    requires forall i :: 0 <= i < |bits| ==> 0 <= bits[i] < SPLIT
    ensures Halves(Limit(Some(l), Some(u)), bits) == Part(l, u, bits)
    ensures var r := Halves(Limit(Some(l), Some(u)), bits);
            Bounded(r) && l <= r.lower.value && r.upper.value <= u
  {
    var w := (u - l) / Pow2(|bits|) as real;
    PartWidth(l, u, |bits|, w);
    HalvesInside(l, u, w, bits);
  }

  /** The 2^k equal parts of [l, u] have width `w` and fill it. */
  lemma PartWidth(l: real, u: real, k: nat, w: real)
    requires l <= u && w == (u - l) / Pow2(k) as real
    ensures 0.0 <= w && l + Units(Pow2(k), w) == u
  {
    UnitsProduct(Pow2(k), w);
    Divided(u - l, Pow2(k) as real);
  }

  /** `HalvesUnits` for an interval of 2^k parts of width `w`, which it does not leave. */
  lemma HalvesInside(l: real, u: real, w: real, bits: seq<int>)
    requires 0.0 <= w && l + Units(Pow2(|bits|), w) == u
    requires forall i :: 0 <= i < |bits| ==> 0 <= bits[i] < SPLIT
    ensures Halves(Limit(Some(l), Some(u)), bits)
         == Limit(Some(l + Units(Binary(bits), w)), Some(l + Units(Binary(bits) + 1, w)))
    ensures var r := Halves(Limit(Some(l), Some(u)), bits);
            Bounded(r) && l <= r.lower.value && r.upper.value <= u
  {
    HalvesUnits(l, w, bits);
    BinaryRange(bits);
    UnitsNonNegative(Binary(bits), w);
    UnitsMonotone(Binary(bits), Binary(bits) + 1, w);
    UnitsMonotone(Binary(bits) + 1, Pow2(|bits|), w);
  }

  /** Each input receives one digit per chunk: as many as there are chunks. */
  lemma ColumnsPerChunk(ds: seq<int>, n: nat, col: nat)
    requires col < n && |ds| % n == 0
    ensures |Column(ds, n, col, 0, 0)| == |ds| / n
  {
    assert |ds| == 0 + (|ds| / n) * n;
    ColumnCount(ds, n, col, 0, |ds| / n);
  }

  /**
    * The closed form of `apply_subspace` on distinct inputs that goes through: input `col`
    * ends in part number `Binary(Column(...))` of 2^k equal parts of its first interval,
    * where its column holds the digit at position `col` of each chunk.
    */
  lemma SubspaceCell(nodes: seq<Node>, inputs: seq<Handle>, subspace: string, col: nat)
    requires forall i :: 0 <= i < |inputs| ==> inputs[i] < |nodes|
    requires forall a, b :: 0 <= a < b < |inputs| ==> inputs[a] != inputs[b]
    requires col < |inputs|
    requires Subspace(nodes, inputs, subspace).1 == Pass
    requires Bounded(nodes[inputs[col]].limit)
    ensures var lim := nodes[inputs[col]].limit;
            Subspace(nodes, inputs, subspace).0[inputs[col]].limit
            == Part(lim.lower.value, lim.upper.value, Column(ParseDigits(subspace).value, |inputs|, col, 0, 0))
  {
    var ds := ParseDigits(subspace).value;
    assert Subspace(nodes, inputs, subspace) == Steps(nodes, inputs, ds, 0, 0);
    PassedDigits(nodes, inputs, ds, 0, 0);
    StepsColumns(nodes, inputs, ds, 0, 0, col);
    var bits := Column(ds, |inputs|, col, 0, 0);
    ColumnDigits(ds, |inputs|, col, 0, 0);
    var lim := nodes[inputs[col]].limit;
    var l, u := lim.lower.value, lim.upper.value;
    assert lim == Limit(Some(l), Some(u));
    HalvesClosed(l, u, bits);
    assert Subspace(nodes, inputs, subspace).0[inputs[col]].limit == Halves(Limit(Some(l), Some(u)), bits);
  }

  /** A column holds only digits of the sequence it is taken from. */
  lemma {:induction false} ColumnDigits(ds: seq<int>, n: nat, col: nat, t: nat, j: nat)
    requires t <= |ds|
    requires forall i :: t <= i < |ds| ==> 0 <= ds[i] < SPLIT
    ensures forall i :: 0 <= i < |Column(ds, n, col, t, j)| ==> 0 <= Column(ds, n, col, t, j)[i] < SPLIT
    decreases |ds| - t
  {
    if t < |ds| {
      ColumnDigits(ds, n, col, t + 1, Next(j, n));
    }
  }

  // ---------------------------------------------------------------------------
  // The procedure

  /** Step `t` of the steps from `t` on: it either fails with what it stored, or the rest follow. */
  lemma StepsAt(nodes: seq<Node>, inputs: seq<Handle>, ds: seq<int>, t: nat, j: nat, after: seq<Node>)
    requires j < |inputs| && t < |ds|
    requires forall i :: 0 <= i < |inputs| ==> inputs[i] < |nodes|
    requires after == nodes[inputs[j] := nodes[inputs[j]].(limit := Step(nodes[inputs[j]].limit, ds[t]).0)]
    ensures Step(nodes[inputs[j]].limit, ds[t]).1.Failed? ==>
              Steps(nodes, inputs, ds, t, j) == (after, Step(nodes[inputs[j]].limit, ds[t]).1)
    ensures Step(nodes[inputs[j]].limit, ds[t]).1.Pass? ==>
              Steps(nodes, inputs, ds, t, j) == Steps(after, inputs, ds, t + 1, Next(j, |inputs|))
  {
  }

  /** A step on a digit below SPLIT and known ends is the `updateLimit` call it makes. */
  lemma StepUpdates(lim: Limit, ch: int, chsz: real)
    requires 0 <= ch < SPLIT && lim.lower.Some? && lim.upper.Some?
    requires chsz == (lim.upper.value - lim.lower.value) / SPLIT as real
    ensures var lo, hi := Some(lim.lower.value + ch as real * chsz), Some(lim.lower.value + (ch + 1) as real * chsz);
            && Step(lim, ch).0 == Narrow(lim, lo, hi)
            && (Step(lim, ch).1 == Pass <==> LimitAccepted(Narrow(lim, lo, hi), lo, hi))
  {
    UnitsProduct(ch, chsz);
    UnitsProduct(ch + 1, chsz);
  }

  /** Within a chunk, the pass after input j takes input j + 1, or the next chunk's first input after the last one. */
  lemma NextInChunk(nodes: seq<Node>, inputs: seq<Handle>, ds: seq<int>, t: nat, j: nat, whole: (seq<Node>, Outcome<Fault>))
    requires j < |inputs| && t < |ds|
    requires forall i :: 0 <= i < |inputs| ==> inputs[i] < |nodes|
    requires Steps(nodes, inputs, ds, t + 1, Next(j, |inputs|)) == whole
    ensures Steps(nodes, inputs, ds, t + 1, if j + 1 == |inputs| then 0 else j + 1) == whole
  {
  }

  /** A step that stores nothing leaves the arena as it was. */
  lemma Unstored(nodes: seq<Node>, h: Handle)
    requires h < |nodes|
    ensures nodes[h := nodes[h].(limit := nodes[h].limit)] == nodes
  {
  }

  /** One pass of the inner loop: digit `ch` applied to input `inp`. */
  method ApplyDigit(g: Graph, inp: Handle, ch: int) returns (res: Outcome<Fault>)
    requires inp < |g.nodes| && 0 <= ch
    modifies g
    ensures g.nodes == old(g.nodes)[inp := old(g.nodes)[inp].(limit := Step(old(g.nodes)[inp].limit, ch).0)]
    ensures res == Step(old(g.nodes)[inp].limit, ch).1
  {
    if ch >= SPLIT {
      Unstored(g.nodes, inp);
      return Failed(BadArgument);
    }
    var lim := g.nodes[inp].limit;
    if lim.lower.None? || lim.upper.None? {
      Unstored(g.nodes, inp);
      return Failed(BadArgument);
    }
    var l, u := lim.lower.value, lim.upper.value;
    var sz := u - l;
    var chsz := sz / SPLIT as real;
    StepUpdates(lim, ch, chsz);
    var ok := g.UpdateLimit(inp, Some(l + ch as real * chsz), Some(l + (ch + 1) as real * chsz));
    if !ok {
      return Failed(InvalidBounds);
    }
    return Pass;
  }

  /**
    * `apply_subspace(io, subspace)`: runs over the chunks of the digit string and, within a
    * chunk, over the inputs paired with its digits, narrowing each input's interval.
    * On failure, the limits already narrowed stay narrowed.
    */
  method ApplySubspace(g: Graph, inputs: seq<Handle>, subspace: string) returns (res: Outcome<Fault>)
    requires forall i :: 0 <= i < |inputs| ==> inputs[i] < |g.nodes|
    modifies g
    ensures (g.nodes, res) == Subspace(old(g.nodes), inputs, subspace)
  {
    var n := |inputs|;
    if n == 0 {
      return Failed(BadArgument);
    }
    if |subspace| % n != 0 {
      return Failed(BadArgument);
    }
    var parsed := ParseDigits(subspace);
    if parsed.None? {
      return Failed(Malformed);
    }
    var digits := parsed.value;
    ghost var whole := Steps(g.nodes, inputs, digits, 0, 0);
    assert whole == Subspace(old(g.nodes), inputs, subspace);
    var split := 0;
    while split < |digits|
      invariant split <= |digits|
      invariant |g.nodes| == |old(g.nodes)|
      invariant Steps(g.nodes, inputs, digits, split, 0) == whole
      decreases |digits| - split
    {
      var r;
      r, split := ApplyChunk(g, inputs, digits, split, whole);
      if r.Failed? {
        return r;
      }
    }
    return Pass;
  }

  /** The inner loop of `apply_subspace`: the inputs paired with the digits of the chunk at `split`. */
  method ApplyChunk(g: Graph, inputs: seq<Handle>, digits: seq<int>, split: nat, ghost whole: (seq<Node>, Outcome<Fault>))
    returns (res: Outcome<Fault>, next: nat)
    requires 0 < |inputs| && split < |digits|
    requires forall i :: 0 <= i < |inputs| ==> inputs[i] < |g.nodes|
    requires forall i :: 0 <= i < |digits| ==> 0 <= digits[i] < 10
    requires Steps(g.nodes, inputs, digits, split, 0) == whole
    modifies g
    ensures |g.nodes| == |old(g.nodes)| && split < next <= |digits|
    ensures res.Failed? ==> (g.nodes, res) == whole
    ensures res.Pass? ==> Steps(g.nodes, inputs, digits, next, 0) == whole
  {
    var n := |inputs|;
    // digit j of the chunk `subspace[split:split+n]` is digit split + j of the whole string
    var j := 0;
    while j < n && split + j < |digits|
      invariant j <= n && split + j <= |digits|
      invariant |g.nodes| == |old(g.nodes)|
      invariant forall i :: 0 <= i < |inputs| ==> inputs[i] < |g.nodes|
      invariant Steps(g.nodes, inputs, digits, split + j, if j == n then 0 else j) == whole
      decreases n - j
    {
      ghost var before := g.nodes;
      var r := ApplyDigit(g, inputs[j], digits[split + j]);
      StepsAt(before, inputs, digits, split + j, j, g.nodes);
      if r.Failed? {
        return r, split + 1;
      }
      NextInChunk(g.nodes, inputs, digits, split + j, j, whole);
      j := j + 1;
    }
    next := split + j;
    if j < n {
      assert next == |digits|;
      assert Steps(g.nodes, inputs, digits, next, j) == (g.nodes, Pass) == Steps(g.nodes, inputs, digits, next, 0);
    }
    return Pass, next;
  }
}
