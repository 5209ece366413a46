/**
  * The InputQuery importer (src/redy/convert/import_ipq.py): reads the text of a Marabou
  * input query and rebuilds the network it encodes, as alternating layers of weighted
  * sums and ReLUs.
  *
  * The query is a list of lines, read one after the other:
  *   numVars, the number of lower bounds, of upper bounds, of equations and of
  *   piecewise-linear constraints;
  *   the input count, then one "i,var" record per input;
  *   the output count, then one "i,var" record per output;
  *   the lower-bound records "var,value", then the upper-bound records;
  *   the equation records "i,type,scalar,var,coeff,var,coeff,...";
  *   the constraint records "i,kind,f,b" (relu, absoluteValue) or "i,max,f,b,b,...".
  * An equation of type 0 states that the sum of its coefficient-variable products
  * equals its scalar.
  */
module Ipq {
  import opened Wrappers
  import opened Nodes
  import opened Views
  import Text
  import Nnet

  /** The query reads numbers with `int` and `float`, as `Nnet.Lexicon` states them. */
  type Lexicon = Nnet.Lexicon

  // ---------------------------------------------------------------------------
  // The query

  /** An equation record: its type, its scalar and its (variable, coefficient) pairs. */
  datatype Linear = Linear(equType: int, scalar: real, adds: seq<(int, real)>)

  /** A piecewise-linear constraint record: relu or absoluteValue with one b, or max with several. */
  datatype Piecewise = Unary(kind: string, b: int, f: int) | Max(bs: seq<int>, f: int)

  /** The fields `Query.__init__` fills. */
  datatype Query = Query(
    numVars: int, inputVars: seq<int>, outputVars: seq<int>,
    lowerBounds: map<int, real>, upperBounds: map<int, real>,
    equList: seq<Linear>, constraints: seq<Piecewise>)

  /** `read(s, int)`: the first line as an integer, and the lines after it. */
  function IntLine(s: seq<string>, lex: Lexicon): Result<(int, seq<string>), Fault>
  {
    if s == [] then Fail(IndexOutOfRange)
    else
      match lex.toInt(s[0])
      case None => Fail(Malformed)
      case Some(n) => Ok((n, s[1..]))
  }

  /**
    * An input or output record "i,var": two fields, the first the record's position,
    * the variable below numVars and not among `inputs` (empty while the inputs are read).
    */
  function VarRecord(line: string, i: int, numVars: int, inputs: seq<int>, lex: Lexicon): (r: Result<int, Fault>)
    ensures r.Ok? ==> r.value < numVars && r.value !in inputs
    ensures r.Fail? ==> r.error == Malformed
  {
    var cur := Text.Split(line, ',');
    if |cur| != 2 || lex.toInt(cur[0]) != Some(i) then Fail(Malformed)
    else
      match lex.toInt(cur[1])
      case None => Fail(Malformed)
      case Some(v) => if v >= numVars || v in inputs then Fail(Malformed) else Ok(v)
  }

  /** Records i, i+1, ... n-1 of the input or output list, appended to `acc`. */
  function VarsFrom(s: seq<string>, lex: Lexicon, numVars: int, inputs: seq<int>, i: nat, n: nat, acc: seq<int>)
    : (r: Result<(seq<int>, seq<string>), Fault>)
    ensures r.Ok? ==> |acc| <= |r.value.0| && r.value.0[..|acc|] == acc
    ensures r.Ok? ==> forall j :: |acc| <= j < |r.value.0| ==> r.value.0[j] < numVars && r.value.0[j] !in inputs
    decreases n - i
  {
    if i >= n then Ok((acc, s))
    else if s == [] then Fail(IndexOutOfRange)
    else
      var v :- VarRecord(s[0], i, numVars, inputs, lex);
      VarsFrom(s[1..], lex, numVars, inputs, i + 1, n, acc + [v])
  }

  /** A bound record "var,value". */
  function BoundRecord(line: string, lex: Lexicon): Result<(int, real), Fault>
  {
    var cur := Text.Split(line, ',');
    if |cur| != 2 then Fail(Malformed)
    else
      match (lex.toInt(cur[0]), lex.toReal(cur[1]))
      case (Some(v), Some(c)) => Ok((v, c))
      case _ => Fail(Malformed)
  }

  /** `n` bound records added to the table `d`; a variable may not be bounded twice. */
  function BoundsFrom(s: seq<string>, lex: Lexicon, n: nat, d: map<int, real>): Result<(map<int, real>, seq<string>), Fault>
    decreases n
  {
    if n == 0 then Ok((d, s))
    else if s == [] then Fail(IndexOutOfRange)
    else
      var (v, c) :- BoundRecord(s[0], lex);
      if v in d then Fail(Malformed) else BoundsFrom(s[1..], lex, n - 1, d[v := c])
  }

  /** The j-th (variable, coefficient) pair from field k of `tail`; None where one does not parse. */
  function PairAt(tail: seq<string>, lex: Lexicon, k: nat, j: nat): Option<(int, real)>
    requires k + 2 * j + 1 < |tail|
  {
    match (lex.toInt(tail[k + 2 * j]), lex.toReal(tail[k + 2 * j + 1]))
    case (Some(v), Some(c)) => Some((v, c))
    case _ => None
  }

  /**
    * `zip(cur[3::2], cur[4::2])` on the fields after the scalar: the pairs from field `k`
    * of `tail` on, appended to `acc`; an odd field at the end is ignored.
    */
  function AddsFrom(tail: seq<string>, lex: Lexicon, k: nat, acc: seq<(int, real)>): Result<seq<(int, real)>, Fault>
    decreases |tail| - k
  {
    if k + 1 >= |tail| then Ok(acc)
    else
      match PairAt(tail, lex, k, 0)
      case Some(p) => AddsFrom(tail, lex, k + 2, acc + [p])
      case None => Fail(Malformed)
  }

  /** An equation record "i,type,scalar,var,coeff,...", the first field its position. */
  function EquationRecord(line: string, i: int, lex: Lexicon): Result<Linear, Fault>
  {
    var cur := Text.Split(line, ',');
    if lex.toInt(cur[0]) != Some(i) then Fail(Malformed)
    else if |cur| < 2 then Fail(IndexOutOfRange)
    else
      match lex.toInt(cur[1])
      case None => Fail(Malformed)
      case Some(equType) =>
        if |cur| < 3 then Fail(IndexOutOfRange)
        else
          match lex.toReal(cur[2])
          case None => Fail(Malformed)
          case Some(scalar) =>
            var adds :- AddsFrom(cur[3..], lex, 0, []);
            Ok(Linear(equType, scalar, adds))
  }

  function EquationsFrom(s: seq<string>, lex: Lexicon, i: nat, n: nat, acc: seq<Linear>)
    : Result<(seq<Linear>, seq<string>), Fault>
    decreases n - i
  {
    if i >= n then Ok((acc, s))
    else if s == [] then Fail(IndexOutOfRange)
    else
      var e :- EquationRecord(s[0], i, lex);
      EquationsFrom(s[1..], lex, i + 1, n, acc + [e])
  }

  const Kinds: seq<string> := ["relu", "absoluteValue", "max"]

  /**
    * A constraint record. The file lists f before b; relu and absoluteValue keep
    * (kind, b, f), max keeps the list of its b variables.
    */
  function ConstraintRecord(line: string, i: int, lex: Lexicon): Result<Piecewise, Fault>
  {
    var cur := Text.Split(line, ',');
    if lex.toInt(cur[0]) != Some(i) then Fail(Malformed)
    else if |cur| < 2 then Fail(IndexOutOfRange)
    else if cur[1] !in Kinds then Fail(UnsupportedConstraint)
    else if |cur| < 3 then Fail(IndexOutOfRange)
    else
      match lex.toInt(cur[2])
      case None => Fail(Malformed)
      case Some(f) =>
        if cur[1] != "max" then
          if |cur| < 4 then Fail(IndexOutOfRange)
          else
            match lex.toInt(cur[3])
            case None => Fail(Malformed)
            case Some(b) => Ok(Unary(cur[1], b, f))
        else
          match Nnet.ParseAll(cur[3..], lex.toInt)
          case None => Fail(Malformed)
          case Some(bs) => Ok(Max(bs, f))
  }

  function ConstraintsFrom(s: seq<string>, lex: Lexicon, i: nat, n: nat, acc: seq<Piecewise>)
    : Result<(seq<Piecewise>, seq<string>), Fault>
    decreases n - i
  {
    if i >= n then Ok((acc, s))
    else if s == [] then Fail(IndexOutOfRange)
    else
      var c :- ConstraintRecord(s[0], i, lex);
      ConstraintsFrom(s[1..], lex, i + 1, n, acc + [c])
  }

  /** `Query(ipq)` on the lines of the file; lines after the last record are ignored. */
  function ParseQuery(lines: seq<string>, lex: Lexicon): (r: Result<Query, Fault>)
    ensures r.Ok? ==> forall v :: v in r.value.inputVars ==> v < r.value.numVars
    ensures r.Ok? ==> forall v :: v in r.value.outputVars ==> v < r.value.numVars && v !in r.value.inputVars
  {
    var (numVars, s1) :- IntLine(lines, lex);
    var (lowerCount, s2) :- IntLine(s1, lex);
    var (upperCount, s3) :- IntLine(s2, lex);
    var (equationCount, s4) :- IntLine(s3, lex);
    var (constraintCount, s5) :- IntLine(s4, lex);
    var (inputCount, s6) :- IntLine(s5, lex);
    var (inputs, s7) :- VarsFrom(s6, lex, numVars, [], 0, Nnet.Count(inputCount), []);
    var (outputCount, s8) :- IntLine(s7, lex);
    var (outputs, s9) :- VarsFrom(s8, lex, numVars, inputs, 0, Nnet.Count(outputCount), []);
    var (lower, s10) :- BoundsFrom(s9, lex, Nnet.Count(lowerCount), map[]);
    var (upper, s11) :- BoundsFrom(s10, lex, Nnet.Count(upperCount), map[]);
    var (equations, s12) :- EquationsFrom(s11, lex, 0, Nnet.Count(equationCount), []);
    var (constraints, _) :- ConstraintsFrom(s12, lex, 0, Nnet.Count(constraintCount), []);
    Ok(Query(numVars, inputs, outputs, lower, upper, equations, constraints))
  }

  // ---------------------------------------------------------------------------
  // Reading, as the source does it

  /** The `for i in range(count)` loop over the input or the output records. */
  method ReadVars(s: seq<string>, lex: Lexicon, numVars: int, inputs: seq<int>, count: int)
    returns (r: Result<(seq<int>, seq<string>), Fault>)
    ensures r == VarsFrom(s, lex, numVars, inputs, 0, Nnet.Count(count), [])
  {
    var n := Nnet.Count(count);
    var rest, vars, i := s, [], 0;
    while i < n
      invariant i <= n
      invariant VarsFrom(rest, lex, numVars, inputs, i, n, vars) == VarsFrom(s, lex, numVars, inputs, 0, n, [])
      decreases n - i
    {
      if rest == [] {
        return Fail(IndexOutOfRange);
      }
      var v :- VarRecord(rest[0], i, numVars, inputs, lex);
      vars := vars + [v];
      rest := rest[1..];
      i := i + 1;
    }
    r := Ok((vars, rest));
  }

  /** One `chain(...)` half of the bound loop: `count` records into a fresh table. */
  method ReadBounds(s: seq<string>, lex: Lexicon, count: int) returns (r: Result<(map<int, real>, seq<string>), Fault>)
    ensures r == BoundsFrom(s, lex, Nnet.Count(count), map[])
  {
    var left := Nnet.Count(count);
    var rest, d := s, map[];
    while left > 0
      invariant BoundsFrom(rest, lex, left, d) == BoundsFrom(s, lex, Nnet.Count(count), map[])
      decreases left
    {
      if rest == [] {
        return Fail(IndexOutOfRange);
      }
      var vc :- BoundRecord(rest[0], lex);
      var (v, c) := vc;
      if v in d {
        return Fail(Malformed);
      }
      d := d[v := c];
      rest := rest[1..];
      left := left - 1;
    }
    r := Ok((d, rest));
  }

  /** The `for v, c in zip(...)` loop of one equation record. */
  method ReadAdds(tail: seq<string>, lex: Lexicon) returns (r: Result<seq<(int, real)>, Fault>)
    ensures r == AddsFrom(tail, lex, 0, [])
  {
    var adds, k := [], 0;
    while k + 1 < |tail|
      invariant AddsFrom(tail, lex, k, adds) == AddsFrom(tail, lex, 0, [])
      decreases |tail| - k
    {
      var p := PairAt(tail, lex, k, 0);
      if p.None? {
        return Fail(Malformed);
      }
      adds := adds + [p.value];
      k := k + 2;
    }
    r := Ok(adds);
  }

  method ReadEquation(line: string, i: int, lex: Lexicon) returns (r: Result<Linear, Fault>)
    ensures r == EquationRecord(line, i, lex)
  {
    var cur := Text.Split(line, ',');
    if lex.toInt(cur[0]) != Some(i) {
      return Fail(Malformed);
    }
    if |cur| < 2 {
      return Fail(IndexOutOfRange);
    }
    var equType := lex.toInt(cur[1]);
    if equType.None? {
      return Fail(Malformed);
    }
    if |cur| < 3 {
      return Fail(IndexOutOfRange);
    }
    var scalar := lex.toReal(cur[2]);
    if scalar.None? {
      return Fail(Malformed);
    }
    var adds :- ReadAdds(cur[3..], lex);
    r := Ok(Linear(equType.value, scalar.value, adds));
  }

  method ReadEquations(s: seq<string>, lex: Lexicon, count: int) returns (r: Result<(seq<Linear>, seq<string>), Fault>)
    ensures r == EquationsFrom(s, lex, 0, Nnet.Count(count), [])
  {
    var n := Nnet.Count(count);
    var rest, equations, i := s, [], 0;
    while i < n
      invariant i <= n
      invariant EquationsFrom(rest, lex, i, n, equations) == EquationsFrom(s, lex, 0, n, [])
      decreases n - i
    {
      if rest == [] {
        return Fail(IndexOutOfRange);
      }
      var e :- ReadEquation(rest[0], i, lex);
      equations := equations + [e];
      rest := rest[1..];
      i := i + 1;
    }
    r := Ok((equations, rest));
  }

  method ReadConstraints(s: seq<string>, lex: Lexicon, count: int) returns (r: Result<(seq<Piecewise>, seq<string>), Fault>)
    ensures r == ConstraintsFrom(s, lex, 0, Nnet.Count(count), [])
  {
    var n := Nnet.Count(count);
    var rest, constraints, i := s, [], 0;
    while i < n
      invariant i <= n
      invariant ConstraintsFrom(rest, lex, i, n, constraints) == ConstraintsFrom(s, lex, 0, n, [])
      decreases n - i
    {
      if rest == [] {
        return Fail(IndexOutOfRange);
      }
      var c :- ConstraintRecord(rest[0], i, lex);
      constraints := constraints + [c];
      rest := rest[1..];
      i := i + 1;
    }
    r := Ok((constraints, rest));
  }

  /** `Query.__init__`: the six counts and the record lists, consumed in file order. */
  method ReadQuery(lines: seq<string>, lex: Lexicon) returns (r: Result<Query, Fault>)
    ensures r == ParseQuery(lines, lex)
  {
    var numVarsLine :- IntLine(lines, lex);
    var (numVars, s1) := numVarsLine;
    var lowerCountLine :- IntLine(s1, lex);
    var (lowerCount, s2) := lowerCountLine;
    var upperCountLine :- IntLine(s2, lex);
    var (upperCount, s3) := upperCountLine;
    var equationCountLine :- IntLine(s3, lex);
    var (equationCount, s4) := equationCountLine;
    var constraintCountLine :- IntLine(s4, lex);
    var (constraintCount, s5) := constraintCountLine;
    var inputCountLine :- IntLine(s5, lex);
    var (inputCount, s6) := inputCountLine;
    var ins :- ReadVars(s6, lex, numVars, [], inputCount);
    var outputCountLine :- IntLine(ins.1, lex);
    var (outputCount, s8) := outputCountLine;
    var outs :- ReadVars(s8, lex, numVars, ins.0, outputCount);
    var lower :- ReadBounds(outs.1, lex, lowerCount);
    var upper :- ReadBounds(lower.1, lex, upperCount);
    var equations :- ReadEquations(upper.1, lex, equationCount);
    var constraints :- ReadConstraints(equations.1, lex, constraintCount);
    r := Ok(Query(numVars, ins.0, outs.0, lower.0, upper.0, equations.0, constraints.0));
  }

  // ---------------------------------------------------------------------------
  // What the records mean

  /**
    * What the input (or output) loop from record i on means: it succeeds exactly when each
    * of the next n - i lines is a valid record for its position, and then yields their
    * variables in order after `acc` and leaves the lines after them.
    */
  predicate VarsSpec(s: seq<string>, lex: Lexicon, numVars: int, inputs: seq<int>, i: nat, n: nat, acc: seq<int>,
                     r: Result<(seq<int>, seq<string>), Fault>)
    requires i <= n
  {
    && (r.Ok? <==> n - i <= |s| && forall k :: 0 <= k < n - i ==> VarRecord(s[k], i + k, numVars, inputs, lex).Ok?)
    && (r.Fail? ==> r.error == IndexOutOfRange || r.error == Malformed)
    && (r.Ok? ==>
          && r.value.1 == s[n - i..] && |r.value.0| == |acc| + (n - i) && r.value.0[..|acc|] == acc
          && forall k :: 0 <= k < n - i ==> r.value.0[|acc| + k] == VarRecord(s[k], i + k, numVars, inputs, lex).value)
  }

  /** The input (or output) loop does what `VarsSpec` says. */
  lemma {:induction false} VarsMeaning(s: seq<string>, lex: Lexicon, numVars: int, inputs: seq<int>, i: nat, n: nat, acc: seq<int>)
    requires i <= n
    ensures VarsSpec(s, lex, numVars, inputs, i, n, acc, VarsFrom(s, lex, numVars, inputs, i, n, acc))
    decreases n - i
  {
    if i < n && s != [] {
      var rec := VarRecord(s[0], i, numVars, inputs, lex);
      if rec.Ok? {
        var acc' := acc + [rec.value];
        VarsMeaning(s[1..], lex, numVars, inputs, i + 1, n, acc');
        assert VarsFrom(s, lex, numVars, inputs, i, n, acc) == VarsFrom(s[1..], lex, numVars, inputs, i + 1, n, acc');
        VarsStep(s, lex, numVars, inputs, i, n, acc, VarsFrom(s[1..], lex, numVars, inputs, i + 1, n, acc'));
      } else {
        assert VarsFrom(s, lex, numVars, inputs, i, n, acc) == Fail(rec.error);
        assert !VarRecord(s[0], i + 0, numVars, inputs, lex).Ok?;
      }
    }
  }

  /** A valid first record carries `VarsSpec` from the lines after it to the whole list. */
  lemma VarsStep(s: seq<string>, lex: Lexicon, numVars: int, inputs: seq<int>, i: nat, n: nat, acc: seq<int>,
                 r: Result<(seq<int>, seq<string>), Fault>)
    requires i < n && s != [] && VarRecord(s[0], i, numVars, inputs, lex).Ok?
    requires VarsSpec(s[1..], lex, numVars, inputs, i + 1, n, acc + [VarRecord(s[0], i, numVars, inputs, lex).value], r)
    ensures VarsSpec(s, lex, numVars, inputs, i, n, acc, r)
  {
    var rec := VarRecord(s[0], i, numVars, inputs, lex);
    var acc' := acc + [rec.value];
    forall k | 0 <= k < n - (i + 1) && k < |s| - 1
      ensures VarRecord(s[1..][k], i + 1 + k, numVars, inputs, lex) == VarRecord(s[k + 1], i + (k + 1), numVars, inputs, lex)
    {
      assert s[1..][k] == s[k + 1];
    }
    if r.Ok? {
      assert r.value.0[..|acc'|] == acc';
      assert r.value.0[..|acc|] == acc'[..|acc|];
      assert r.value.0[|acc|] == acc'[|acc|] == rec.value;
      assert s[1..][n - (i + 1)..] == s[n - i..];
      forall k | 1 <= k < n - i
        ensures r.value.0[|acc| + k] == VarRecord(s[k], i + k, numVars, inputs, lex).value
      {
        assert r.value.0[|acc'| + (k - 1)] == VarRecord(s[1..][k - 1], i + 1 + (k - 1), numVars, inputs, lex).value;
      }
      assert VarRecord(s[0], i + 0, numVars, inputs, lex).Ok?;
    } else if n - i <= |s| {
      var k' :| 0 <= k' < n - (i + 1) && !VarRecord(s[1..][k'], i + 1 + k', numVars, inputs, lex).Ok?;
      assert !VarRecord(s[k' + 1], i + (k' + 1), numVars, inputs, lex).Ok?;
    }
  }

  /** Every pair of fields parses, and then the equation holds one pair per two fields. */
  lemma {:induction false} AddsMeaning(tail: seq<string>, lex: Lexicon, k: nat, acc: seq<(int, real)>)
    requires k <= |tail|
    ensures var r := AddsFrom(tail, lex, k, acc); var m := (|tail| - k) / 2;
      && (r.Ok? <==> forall j :: 0 <= j < m ==> PairAt(tail, lex, k, j).Some?)
      && (r.Fail? ==> r.error == Malformed)
      && (r.Ok? ==>
            && |r.value| == |acc| + m && r.value[..|acc|] == acc
            && forall j :: 0 <= j < m ==> r.value[|acc| + j] == PairAt(tail, lex, k, j).value)
    decreases |tail| - k
  {
    if k + 1 < |tail| {
      var m := (|tail| - k) / 2;
      assert (|tail| - (k + 2)) / 2 == m - 1;
      var k2 := k + 2;
      forall j | 0 <= j < m - 1
        ensures PairAt(tail, lex, k2, j) == PairAt(tail, lex, k, j + 1)
      {
        assert k2 + 2 * j == k + 2 * (j + 1);
      }
      var p := PairAt(tail, lex, k, 0);
      if p.Some? {
        var acc' := acc + [p.value];
        AddsMeaning(tail, lex, k + 2, acc');
        var r := AddsFrom(tail, lex, k + 2, acc');
        assert AddsFrom(tail, lex, k, acc) == r;
        if r.Ok? {
          assert r.value[..|acc'|] == acc';
          assert r.value[..|acc|] == acc'[..|acc|];
          assert r.value[|acc| + 0] == acc'[|acc|] == p.value;
          forall j | 1 <= j < m
            ensures PairAt(tail, lex, k, j).Some? && r.value[|acc| + j] == PairAt(tail, lex, k, j).value
          {
            assert PairAt(tail, lex, k2, j - 1) == PairAt(tail, lex, k, j);
            assert r.value[|acc'| + (j - 1)] == PairAt(tail, lex, k2, j - 1).value;
          }
        } else {
          var j' :| 0 <= j' < m - 1 && !PairAt(tail, lex, k2, j').Some?;
          assert !PairAt(tail, lex, k, j' + 1).Some?;
        }
      }
    }
  }

  /** No record of a bound list names a variable twice or one already in the table. */
  predicate BoundsValid(s: seq<string>, lex: Lexicon, n: nat, d: map<int, real>)
  {
    && n <= |s|
    && (forall k :: 0 <= k < n ==> BoundRecord(s[k], lex).Ok? && BoundRecord(s[k], lex).value.0 !in d)
    && forall k, k' :: 0 <= k < k' < n ==> BoundRecord(s[k], lex).value.0 != BoundRecord(s[k'], lex).value.0
  }

  /** The variables the first n bound records name. */
  function RecordVars(s: seq<string>, lex: Lexicon, n: nat): set<int>
    requires n <= |s| && forall k :: 0 <= k < n ==> BoundRecord(s[k], lex).Ok?
  {
    set k | 0 <= k < n :: BoundRecord(s[k], lex).value.0
  }

  /** Past a valid first record, the rest is valid for the table that holds it. */
  lemma BoundsValidStep(s: seq<string>, lex: Lexicon, n: nat, d: map<int, real>)
    requires 0 < n && s != [] && BoundRecord(s[0], lex).Ok? && BoundRecord(s[0], lex).value.0 !in d
    ensures var (v, c) := BoundRecord(s[0], lex).value;
      BoundsValid(s, lex, n, d) <==> BoundsValid(s[1..], lex, n - 1, d[v := c])
  {
    var (v, c) := BoundRecord(s[0], lex).value;
    forall k | 0 <= k < n - 1 && k < |s| - 1
      ensures BoundRecord(s[1..][k], lex) == BoundRecord(s[k + 1], lex)
    {
      assert s[1..][k] == s[k + 1];
    }
    if BoundsValid(s[1..], lex, n - 1, d[v := c]) {
      forall k, k' | 0 <= k < k' < n
        ensures BoundRecord(s[k], lex).value.0 != BoundRecord(s[k'], lex).value.0
      {
        assert BoundRecord(s[1..][k' - 1], lex) == BoundRecord(s[k'], lex);
        if k > 0 {
          assert BoundRecord(s[1..][k - 1], lex) == BoundRecord(s[k], lex);
        }
      }
    }
    if BoundsValid(s, lex, n, d) {
      forall k | 0 <= k < n - 1
        ensures BoundRecord(s[1..][k], lex).Ok? && BoundRecord(s[1..][k], lex).value.0 !in d[v := c]
      {
        assert BoundRecord(s[0], lex).value.0 != BoundRecord(s[k + 1], lex).value.0;
      }
      forall k, k' | 0 <= k < k' < n - 1
        ensures BoundRecord(s[1..][k], lex).value.0 != BoundRecord(s[1..][k'], lex).value.0
      {
        assert BoundRecord(s[k + 1], lex).value.0 != BoundRecord(s[k' + 1], lex).value.0;
      }
    }
  }

  /**
    * The bound loop succeeds exactly when its records are valid and name distinct
    * variables not yet bounded.
    */
  lemma {:induction false} BoundsOutcome(s: seq<string>, lex: Lexicon, n: nat, d: map<int, real>)
    ensures var r := BoundsFrom(s, lex, n, d);
      && (r.Ok? <==> BoundsValid(s, lex, n, d))
      && (r.Fail? ==> r.error == IndexOutOfRange || r.error == Malformed)
    decreases n
  {
    if n > 0 && s != [] {
      var rec := BoundRecord(s[0], lex);
      if rec.Ok? && rec.value.0 !in d {
        var (v, c) := rec.value;
        BoundsOutcome(s[1..], lex, n - 1, d[v := c]);
        BoundsValidStep(s, lex, n, d);
        assert BoundsFrom(s, lex, n, d) == BoundsFrom(s[1..], lex, n - 1, d[v := c]);
      } else {
        assert !(BoundRecord(s[0], lex).Ok? && BoundRecord(s[0], lex).value.0 !in d);
      }
    }
  }

  /** The loop's result on valid records: each record's value under its variable, the rest kept. */
  predicate TableOf(s: seq<string>, lex: Lexicon, n: nat, d: map<int, real>,
                    r: Result<(map<int, real>, seq<string>), Fault>)
    requires BoundsValid(s, lex, n, d)
  {
    && r.Ok? && r.value.1 == s[n..]
    && r.value.0.Keys == d.Keys + RecordVars(s, lex, n)
    && (forall v :: v in d ==> r.value.0[v] == d[v])
    && forall k :: 0 <= k < n ==> r.value.0[BoundRecord(s[k], lex).value.0] == BoundRecord(s[k], lex).value.1
  }

  /** On valid records, the loop adds each record's value under its variable and keeps the rest. */
  lemma {:induction false} BoundsTable(s: seq<string>, lex: Lexicon, n: nat, d: map<int, real>)
    requires BoundsValid(s, lex, n, d)
    ensures TableOf(s, lex, n, d, BoundsFrom(s, lex, n, d))
    decreases n
  {
    if n > 0 {
      var (v, c) := BoundRecord(s[0], lex).value;
      var d' := d[v := c];
      BoundsValidStep(s, lex, n, d);
      BoundsTable(s[1..], lex, n - 1, d');
      assert BoundsFrom(s, lex, n, d) == BoundsFrom(s[1..], lex, n - 1, d');
      TableStep(s, lex, n, d, BoundsFrom(s[1..], lex, n - 1, d'));
    } else {
      assert BoundsFrom(s, lex, n, d) == Ok((d, s));
    }
  }

  /** The first record stored, then the rest: the loop's result from the first record on. */
  lemma TableStep(s: seq<string>, lex: Lexicon, n: nat, d: map<int, real>, r: Result<(map<int, real>, seq<string>), Fault>)
    requires BoundsValid(s, lex, n, d) && n > 0
    requires BoundsValid(s[1..], lex, n - 1, d[BoundRecord(s[0], lex).value.0 := BoundRecord(s[0], lex).value.1])
    requires TableOf(s[1..], lex, n - 1, d[BoundRecord(s[0], lex).value.0 := BoundRecord(s[0], lex).value.1], r)
    ensures TableOf(s, lex, n, d, r)
  {
    var (v, c) := BoundRecord(s[0], lex).value;
    assert s[1..][n - 1..] == s[n..];
    forall k | 0 <= k < n - 1
      ensures BoundRecord(s[1..][k], lex) == BoundRecord(s[k + 1], lex)
    {
      assert s[1..][k] == s[k + 1];
    }
    RecordVarsStep(s, lex, n);
    forall k | 0 <= k < n
      ensures r.value.0[BoundRecord(s[k], lex).value.0] == BoundRecord(s[k], lex).value.1
    {
      if k > 0 {
        assert BoundRecord(s[1..][k - 1], lex) == BoundRecord(s[k], lex);
      }
    }
  }

  /** The variables of the first n records: the first record's, then those of the rest. */
  lemma RecordVarsStep(s: seq<string>, lex: Lexicon, n: nat)
    requires 0 < n <= |s| && forall k :: 0 <= k < n ==> BoundRecord(s[k], lex).Ok?
    ensures forall k :: 0 <= k < n - 1 ==> BoundRecord(s[1..][k], lex).Ok?
    ensures RecordVars(s, lex, n) == {BoundRecord(s[0], lex).value.0} + RecordVars(s[1..], lex, n - 1)
  {
    var v := BoundRecord(s[0], lex).value.0;
    forall k | 0 <= k < n - 1 ensures BoundRecord(s[1..][k], lex) == BoundRecord(s[k + 1], lex) {
      assert s[1..][k] == s[k + 1];
    }
    forall x | x in RecordVars(s, lex, n) ensures x in {v} + RecordVars(s[1..], lex, n - 1) {
      var k :| 0 <= k < n && BoundRecord(s[k], lex).value.0 == x;
      if k > 0 {
        assert BoundRecord(s[1..][k - 1], lex).value.0 == x;
      }
    }
    forall x | x in RecordVars(s[1..], lex, n - 1) ensures x in RecordVars(s, lex, n) {
      var k :| 0 <= k < n - 1 && BoundRecord(s[1..][k], lex).value.0 == x;
      assert BoundRecord(s[k + 1], lex).value.0 == x;
    }
  }

  // ---------------------------------------------------------------------------
  // Records written with `str` are read back

  lemma IntTextFields(n: int)
    ensures ',' !in Text.IntText(n)
  {
    var m: nat := if n < 0 then -n else n;
    var d := Text.Digits(m);
    assert forall j :: 0 <= j < |d| ==> Text.IsDigit(d[j]);
    if n < 0 {
      assert Text.IntText(n) == ['-'] + d;
    }
  }

  lemma DecimalTextFields(m: int, k: nat)
    ensures ',' !in Text.DecimalText(m, k)
  {
    var d := Text.DecimalDigits(m, k);
    assert forall j :: 0 <= j < |d| ==> Text.IsDigit(d[j]);
    var t := Text.DecimalText(m, k);
    assert t == (if m < 0 then ['-'] else []) + d[..|d| - k] + ['.'] + d[|d| - k..];
    assert forall j :: 0 <= j < |t| ==> t[j] == '-' || t[j] == '.' || Text.IsDigit(t[j]);
  }

  /** An input or output record "i,var" as `str` writes it is read back as var. */
  lemma VarRecordOf(i: int, v: int, numVars: int, inputs: seq<int>)
    requires v < numVars && v !in inputs
    ensures VarRecord(Text.IntText(i) + "," + Text.IntText(v), i, numVars, inputs, Nnet.Python) == Ok(v)
  {
    IntTextFields(i);
    IntTextFields(v);
    var parts := [Text.IntText(i), Text.IntText(v)];
    assert Text.Join(parts, ',') == Text.IntText(i) + "," + Text.IntText(v);
    Text.SplitJoin(parts, ',');
    Text.ParseIntText(i);
    Text.ParseIntText(v);
  }

  /** A bound record "var,value" with a decimal value m / 10^k is read back. */
  lemma BoundRecordOf(v: int, m: int, k: nat)
    ensures BoundRecord(Text.IntText(v) + "," + Text.DecimalText(m, k), Nnet.Python) == Ok((v, Text.Scaled(m, k)))
  {
    IntTextFields(v);
    DecimalTextFields(m, k);
    var parts := [Text.IntText(v), Text.DecimalText(m, k)];
    assert Text.Join(parts, ',') == Text.IntText(v) + "," + Text.DecimalText(m, k);
    Text.SplitJoin(parts, ',');
    Text.ParseIntText(v);
    Text.ParseDecimalText(m, k);
  }

  /** A relu record lists f before b; the constraint read back holds b first. */
  lemma ReluRecordOf(i: int, f: int, b: int)
    ensures ConstraintRecord(Text.Join([Text.IntText(i), "relu", Text.IntText(f), Text.IntText(b)], ','), i, Nnet.Python)
              == Ok(Unary("relu", b, f))
  {
    IntTextFields(i);
    IntTextFields(f);
    IntTextFields(b);
    var parts := [Text.IntText(i), "relu", Text.IntText(f), Text.IntText(b)];
    assert forall j :: 0 <= j < |parts| ==> ',' !in parts[j];
    Text.SplitJoin(parts, ',');
    Text.ParseIntText(i);
    Text.ParseIntText(f);
    Text.ParseIntText(b);
    UnaryRecord(Text.Join(parts, ','), parts, i, f, b);
  }

  /** A record of four fields whose kind is not `max` is read as a unary constraint. */
  lemma UnaryRecord(line: string, parts: seq<string>, i: int, f: int, b: int)
    requires Text.Split(line, ',') == parts && |parts| == 4
    requires Nnet.Python.toInt(parts[0]) == Some(i)
    requires parts[1] in Kinds && parts[1] != "max"
    requires Nnet.Python.toInt(parts[2]) == Some(f) && Nnet.Python.toInt(parts[3]) == Some(b)
    ensures ConstraintRecord(line, i, Nnet.Python) == Ok(Unary(parts[1], b, f))
  {
  }


  // ---------------------------------------------------------------------------
  // The variable table

  /** The `var` dictionary: variable to node, with its keys in insertion order. */
  datatype Table = Table(order: seq<int>, at: map<int, Handle>)

  const Empty: Table := Table([], map[])

  /** Each key is listed once, where it was first set. */
  predicate Listed(t: Table)
  {
    && (forall v :: v in t.at ==> v in t.order)
    && (forall v :: v in t.order ==> v in t.at)
    && forall i, j :: 0 <= i < j < |t.order| ==> t.order[i] != t.order[j]
  }

  /** `var[v] = h`: a new key goes last, an old one keeps its place. */
  function Put(t: Table, v: int, h: Handle): (r: Table)
    ensures Listed(t) ==> Listed(r)
  {
    Table(if v in t.at then t.order else t.order + [v], t.at[v := h])
  }

  /** The variables a `dvar` list defines. */
  function Keys(d: seq<(int, Handle)>): set<int>
  {
    set j | 0 <= j < |d| :: d[j].0
  }

  /** The nodes a table maps to. */
  function Image(at: map<int, Handle>): set<Handle>
  {
    set v | v in at :: at[v]
  }

  /** The nodes a `dvar` list maps to. */
  function Handles(d: seq<(int, Handle)>): set<Handle>
  {
    set j | 0 <= j < |d| :: d[j].1
  }

  /** No variable is defined twice. */
  predicate DistinctKeys(d: seq<(int, Handle)>)
  {
    forall i, j :: 0 <= i < j < |d| ==> d[i].0 != d[j].0
  }

  lemma KeysSplit(d: seq<(int, Handle)>)
    requires d != []
    ensures Keys(d) == {d[0].0} + Keys(d[1..])
    ensures Handles(d) == {d[0].1} + Handles(d[1..])
  {
    forall x | x in Keys(d) ensures x in {d[0].0} + Keys(d[1..]) {
      var j :| 0 <= j < |d| && d[j].0 == x;
      if j > 0 {
        assert d[1..][j - 1].0 == x;
      }
    }
    forall x | x in Handles(d) ensures x in {d[0].1} + Handles(d[1..]) {
      var j :| 0 <= j < |d| && d[j].1 == x;
      if j > 0 {
        assert d[1..][j - 1].1 == x;
      }
    }
  }

  /** `var.update(dvar)`: the keys of `dvar` are added to the table. */
  function Update(t: Table, d: seq<(int, Handle)>): (r: Table)
    ensures r.at.Keys == t.at.Keys + Keys(d)
    ensures Listed(t) ==> Listed(r)
    decreases |d|
  {
    if d == [] then t
    else
      KeysSplit(d);
      Update(Put(t, d[0].0, d[0].1), d[1..])
  }

  /** After `var.update(dvar)` the table maps to old nodes or to `dvar`'s. */
  lemma {:induction false} UpdateValues(t: Table, d: seq<(int, Handle)>)
    ensures Image(Update(t, d).at) <= Image(t.at) + Handles(d)
    decreases |d|
  {
    if d != [] {
      var t' := Put(t, d[0].0, d[0].1);
      UpdateValues(t', d[1..]);
      KeysSplit(d);
      assert t'.at == t.at[d[0].0 := d[0].1];
      forall x | x in Image(t'.at) ensures x in Image(t.at) + {d[0].1} {
        var v :| v in t'.at && t'.at[v] == x;
        if v != d[0].0 {
          assert t.at[v] == x;
        }
      }
    }
  }

  /** The keys `dvar` does not name keep their nodes. */
  lemma {:induction false} UpdateKeeps(t: Table, d: seq<(int, Handle)>, v: int)
    requires v in t.at && v !in Keys(d)
    ensures Update(t, d).at[v] == t.at[v]
    decreases |d|
  {
    if d != [] {
      KeysSplit(d);
      UpdateKeeps(Put(t, d[0].0, d[0].1), d[1..], v);
    }
  }

  /** When `dvar` names each variable once, each maps to its `dvar` node. */
  lemma {:induction false} UpdateSets(t: Table, d: seq<(int, Handle)>, j: nat)
    requires DistinctKeys(d) && j < |d|
    ensures Update(t, d).at[d[j].0] == d[j].1
    decreases |d|
  {
    var t' := Put(t, d[0].0, d[0].1);
    assert DistinctKeys(d[1..]) by {
      forall i, k | 0 <= i < k < |d| - 1 ensures d[1..][i].0 != d[1..][k].0 {
        assert d[1..][i] == d[i + 1] && d[1..][k] == d[k + 1];
      }
    }
    if j == 0 {
      assert d[0].0 !in Keys(d[1..]);
      UpdateKeeps(t', d[1..], d[0].0);
    } else {
      assert d[1..][j - 1] == d[j];
      UpdateSets(t', d[1..], j - 1);
    }
  }

  // ---------------------------------------------------------------------------
  // Names

  /** The three name formats: inputs, weighted sums and ReLUs. */
  datatype Role = InputRole | SumRole | ReluRole

  /** A name for the node of a role at (layer, position). */
  type Label = (Role, nat, nat) -> string

  /** `"{}{:02}_{:02}"`, `"{}{:02}_w{:02}"` and `"{}{:02}_r{:02}"` with the prefix "ipq<counter>_". */
  function IpqNaming(counter: nat): Label
  {
    (role: Role, l: nat, n: nat) =>
      var infix := match role case InputRole => "_" case SumRole => "_w" case ReluRole => "_r";
      "ipq" + Text.Digits(counter) + "_" + Text.Pad(Text.Digits(l), 2) + infix + Text.Pad(Text.Digits(n), 2)
  }

  // ---------------------------------------------------------------------------
  // Building the layers

  /** The layers as `import_ipq` collects them: inputs, then sums and ReLUs in turn. */
  type Stages = seq<seq<Handle>>

  /** `dict.get(v, None)`. */
  function Get(m: map<int, real>, v: int): Option<real>
  {
    if v in m then Some(m[v]) else None
  }

  /** Variables 0, 1, ... numVars - 1 from `v` on whose lower and upper bounds are equal. */
  function FixedFrom(q: Query, v: int): (r: seq<int>)
    ensures forall x :: x in r <==> v <= x < q.numVars && Get(q.lowerBounds, x).Some? && Get(q.lowerBounds, x) == Get(q.upperBounds, x)
    ensures forall i :: 0 <= i < |r| ==> v <= r[i]
    ensures forall i, j :: 0 <= i < j < |r| ==> r[i] < r[j]
    decreases q.numVars - v
  {
    if v >= q.numVars then []
    else
      var rest := FixedFrom(q, v + 1);
      if Get(q.lowerBounds, v).Some? && Get(q.lowerBounds, v) == Get(q.upperBounds, v) then [v] + rest else rest
  }

  /** The input loop: a plain node per input variable; a repeated variable maps to its last node. */
  function InputsFrom(A: seq<Node>, vars: seq<int>, name: Label, i: nat, layer: seq<Handle>, t: Table)
    : (seq<Node>, seq<Handle>, Table)
    decreases |vars| - i
  {
    if i >= |vars| then (A, layer, t)
    else
      var n := Node(Plain, Unbounded, Some(name(InputRole, 0, i)));
      InputsFrom(A + [n], vars, name, i + 1, layer + [|A|], Put(t, vars[i], |A|))
  }

  /** `[(v, c) for v, c in adds if v not in var]`. */
  function Unmapped(adds: seq<(int, real)>, at: map<int, Handle>): (r: seq<(int, real)>)
    ensures forall p :: p in r <==> p in adds && p.0 !in at
  {
    if adds == [] then []
    else (if adds[0].0 in at then [] else [adds[0]]) + Unmapped(adds[1..], at)
  }

  /** Every variable of an equation is mapped but `nv`. */
  predicate OthersMapped(adds: seq<(int, real)>, nv: int, at: map<int, Handle>)
  {
    forall j :: 0 <= j < |adds| && adds[j].0 != nv ==> adds[j].0 in at
  }

  /**
    * The variable an equation defines and its coefficient: the equation must be of type 0
    * and have exactly one unmapped variable, whose coefficient is -1 (or 1 when not strict).
    * None where the equation is passed over.
    */
  function Defines(e: Linear, at: map<int, Handle>, strict: bool): (r: Result<Option<(int, real)>, Fault>)
    ensures r.Ok? && r.value.Some? ==>
      && e.equType == 0 && Unmapped(e.adds, at) == [r.value.value]
      && (r.value.value.1 == -1.0 || (!strict && r.value.value.1 == 1.0))
      && OthersMapped(e.adds, r.value.value.0, at)
  {
    if e.equType != 0 then
      if strict then Fail(UnsupportedConstraint) else Ok(None)
    else
      var news := Unmapped(e.adds, at);
      if strict && |news| != 0 && |news| != 1 && |news| != |e.adds| then Fail(UnsupportedTopology)
      else if |news| != 1 then Ok(None)
      else
        var (nv, nc) := news[0];
        if nc != -1.0 && (strict || nc != 1.0) then Fail(UnsupportedTopology)
        else
          assert forall j :: 0 <= j < |e.adds| && e.adds[j].0 !in at ==> e.adds[j] in news;
          Ok(Some((nv, nc)))
  }

  /** `[(k * c, var[v]) for v, c in adds if v != nv]`. */
  function Terms(adds: seq<(int, real)>, nv: int, at: map<int, Handle>, k: real): (r: seq<Term>)
    requires OthersMapped(adds, nv, at)
    ensures forall j :: 0 <= j < |r| ==> r[j].1 in Image(at)
  {
    if adds == [] then []
    else
      var rest := Terms(adds[1..], nv, at, k);
      if adds[0].0 == nv then rest else [(k * adds[0].1, at[adds[0].0])] + rest
  }

  /**
    * The weighted sum that solves an equation for its new variable `nv` of coefficient
    * `nc` (which is 1 or -1): nv = nc * (scalar - the other terms).
    */
  function Solved(e: Linear, nv: int, nc: real, at: map<int, Handle>): Kind
    requires OthersMapped(e.adds, nv, at)
  {
    Sum(Terms(e.adds, nv, at, 0.0 - nc), nc * e.scalar)
  }

  /**
    * `build_weighted_sum` from equation `e` on: a NodeSum per equation that defines a
    * variable, and the list `dvar` of the variables defined. The table is updated by the caller.
    */
  function SumLayer(eqs: seq<Linear>, at: map<int, Handle>, A: seq<Node>, l: nat, strict: bool, name: Label,
                    e: nat, layer: seq<Handle>, dvar: seq<(int, Handle)>)
    : (seq<Node>, Result<(seq<Handle>, seq<(int, Handle)>), Fault>)
    decreases |eqs| - e
  {
    if e >= |eqs| then (A, Ok((layer, dvar)))
    else
      match Defines(eqs[e], at, strict)
      case Fail(err) => (A, Fail(err))
      case Ok(None) => SumLayer(eqs, at, A, l, strict, name, e + 1, layer, dvar)
      case Ok(Some((nv, nc))) =>
        var A' := A + [Node(Solved(eqs[e], nv, nc, at), Unbounded, Some(name(SumRole, l, |layer|)))];
        if nv in Keys(dvar) then (A', Fail(UnsupportedTopology))
        else SumLayer(eqs, at, A', l, strict, name, e + 1, layer + [|A|], dvar + [(nv, |A|)])
  }

  /**
    * The ReLU a constraint defines: it must be a relu; it defines f, reading var[b],
    * when b is mapped and f is not.
    */
  function ReluOf(c: Piecewise, at: map<int, Handle>): (r: Result<Option<(int, Handle)>, Fault>)
    ensures r.Ok? <==> c.Unary? && c.kind == "relu"
    ensures r.Ok? ==> (r.value.Some? <==> c.b in at && c.f !in at)
    ensures r.Ok? && r.value.Some? ==> r.value.value == (c.f, at[c.b])
  {
    match c
    case Max(_, _) => Fail(UnsupportedConstraint)
    case Unary(kind, b, f) =>
      if kind != "relu" then Fail(UnsupportedConstraint)
      else if b !in at || f in at then Ok(None)
      else Ok(Some((f, at[b])))
  }

  /** `build_relu` from constraint `c` on. */
  function ReluLayer(cs: seq<Piecewise>, at: map<int, Handle>, A: seq<Node>, l: nat, name: Label,
                     c: nat, layer: seq<Handle>, dvar: seq<(int, Handle)>)
    : (seq<Node>, Result<(seq<Handle>, seq<(int, Handle)>), Fault>)
    decreases |cs| - c
  {
    if c >= |cs| then (A, Ok((layer, dvar)))
    else
      match ReluOf(cs[c], at)
      case Fail(err) => (A, Fail(err))
      case Ok(None) => ReluLayer(cs, at, A, l, name, c + 1, layer, dvar)
      case Ok(Some((vf, input))) =>
        var A' := A + [Node(ReLU(input, false), Unbounded, Some(name(ReluRole, l, |layer|)))];
        if vf in Keys(dvar) then (A', Fail(UnsupportedTopology))
        else ReluLayer(cs, at, A', l, name, c + 1, layer + [|A|], dvar + [(vf, |A|)])
  }

  /** The variables the equations mention: the table can only grow inside this set by sums. */
  function EqVars(eqs: seq<Linear>): set<int>
  {
    set e, j | 0 <= e < |eqs| && 0 <= j < |eqs[e].adds| :: eqs[e].adds[j].0
  }

  lemma KeysAppend(d: seq<(int, Handle)>, p: (int, Handle))
    ensures Keys(d + [p]) == Keys(d) + {p.0}
  {
    var d' := d + [p];
    forall x | x in Keys(d') ensures x in Keys(d) + {p.0} {
      var j :| 0 <= j < |d'| && d'[j].0 == x;
      if j < |d| {
        assert d[j].0 == x;
      }
    }
    forall x | x in Keys(d) ensures x in Keys(d') {
      var j :| 0 <= j < |d| && d[j].0 == x;
      assert d'[j].0 == x;
    }
    assert d'[|d|].0 == p.0;
  }

  /** The variables a sum layer defines are new, are mentioned by the equations, and one per node. */
  lemma {:induction false} SumLayerFresh(eqs: seq<Linear>, at: map<int, Handle>, A: seq<Node>, l: nat, strict: bool,
                                         name: Label, e: nat, layer: seq<Handle>, dvar: seq<(int, Handle)>)
    requires Keys(dvar) <= EqVars(eqs) - at.Keys && |dvar| == |layer|
    ensures var r := SumLayer(eqs, at, A, l, strict, name, e, layer, dvar).1;
      r.Ok? ==> Keys(r.value.1) <= EqVars(eqs) - at.Keys && |r.value.1| == |r.value.0|
    decreases |eqs| - e
  {
    if e < |eqs| {
      match Defines(eqs[e], at, strict)
      case Fail(_) =>
      case Ok(None) =>
        SumLayerFresh(eqs, at, A, l, strict, name, e + 1, layer, dvar);
      case Ok(Some((nv, nc))) =>
        var A' := A + [Node(Solved(eqs[e], nv, nc, at), Unbounded, Some(name(SumRole, l, |layer|)))];
        if nv !in Keys(dvar) {
          assert (nv, nc) in Unmapped(eqs[e].adds, at);
          var j :| 0 <= j < |eqs[e].adds| && eqs[e].adds[j] == (nv, nc);
          assert nv in EqVars(eqs);
          KeysAppend(dvar, (nv, |A|));
          SumLayerFresh(eqs, at, A', l, strict, name, e + 1, layer + [|A|], dvar + [(nv, |A|)]);
        }
    }
  }

  lemma {:induction false} SubsetCard<T>(s: set<T>, t: set<T>)
    requires s <= t
    ensures |s| <= |t|
    decreases |t|
  {
    if s != {} {
      var x :| x in s;
      SubsetCard(s - {x}, t - {x});
    }
  }

  /** A table that gains a key the equations mention leaves fewer of them to define. */
  lemma Progress(E: set<int>, before: set<int>, after: set<int>, k: int)
    requires before <= after && k in E && k !in before && k in after
    ensures |E - after| < |E - before|
  {
    SubsetCard(E - after, (E - before) - {k});
  }

  /** Defining at least one new variable the equations mention leaves fewer of them to define. */
  lemma Shrinks(E: set<int>, t: Table, d1: seq<(int, Handle)>, d2: seq<(int, Handle)>)
    requires d1 != [] && Keys(d1) <= E - t.at.Keys
    ensures |E - Update(Update(t, d1), d2).at.Keys| < |E - t.at.Keys|
  {
    assert d1[0].0 in Keys(d1);
    Progress(E, t.at.Keys, Update(Update(t, d1), d2).at.Keys, d1[0].0);
  }

  /**
    * One pass of the `while True` loop: a sum layer, which must not be empty, then a ReLU
    * layer. The flag says whether the ReLU layer was non-empty, so that the loop goes on.
    */
  function Round(q: Query, A: seq<Node>, t: Table, S: Stages, strict: bool, name: Label)
    : (seq<Node>, Result<(Table, Stages, bool), Fault>)
  {
    var sums := SumLayer(q.equList, t.at, A, |S|, strict, name, 0, [], []);
    if sums.1.Fail? then (sums.0, Fail(sums.1.error))
    else if sums.1.value.0 == [] then (sums.0, Fail(UnsupportedTopology))
    else
      var t1 := Update(t, sums.1.value.1);
      var S1 := S + [sums.1.value.0];
      var relus := ReluLayer(q.constraints, t1.at, sums.0, |S1|, name, 0, [], []);
      if relus.1.Fail? then (relus.0, Fail(relus.1.error))
      else
        var t2 := Update(t1, relus.1.value.1);
        if relus.1.value.0 == [] then (relus.0, Ok((t2, S1, false)))
        else (relus.0, Ok((t2, S1 + [relus.1.value.0], true)))
  }

  /** A pass that goes on had a non-empty sum layer, and its table is the old one updated twice. */
  lemma RoundOn(q: Query, A: seq<Node>, t: Table, S: Stages, strict: bool, name: Label)
    returns (d1: seq<(int, Handle)>, d2: seq<(int, Handle)>)
    requires Round(q, A, t, S, strict, name).1.Ok? && Round(q, A, t, S, strict, name).1.value.2
    ensures SumLayer(q.equList, t.at, A, |S|, strict, name, 0, [], []).1.Ok?
    ensures d1 == SumLayer(q.equList, t.at, A, |S|, strict, name, 0, [], []).1.value.1
    ensures SumLayer(q.equList, t.at, A, |S|, strict, name, 0, [], []).1.value.0 != []
    ensures Round(q, A, t, S, strict, name).1.value.0 == Update(Update(t, d1), d2)
  {
    var sums := SumLayer(q.equList, t.at, A, |S|, strict, name, 0, [], []);
    d1 := sums.1.value.1;
    var relus := ReluLayer(q.constraints, Update(t, d1).at, sums.0, |S| + 1, name, 0, [], []);
    d2 := relus.1.value.1;
  }

  /** A pass after which the loop goes on has defined a variable the equations mention. */
  lemma RoundShrinks(q: Query, A: seq<Node>, t: Table, S: Stages, strict: bool, name: Label)
    ensures var r := Round(q, A, t, S, strict, name).1;
      r.Ok? && r.value.2 ==> |EqVars(q.equList) - r.value.0.at.Keys| < |EqVars(q.equList) - t.at.Keys|
  {
    var r := Round(q, A, t, S, strict, name).1;
    if r.Ok? && r.value.2 {
      var d1, d2 := RoundOn(q, A, t, S, strict, name);
      assert d1 != [] && Keys(d1) <= EqVars(q.equList) - t.at.Keys by {
        SumLayerFresh(q.equList, t.at, A, |S|, strict, name, 0, [], []);
      }
      Shrinks(EqVars(q.equList), t, d1, d2);
    }
  }

  /**
    * The `while True` loop: passes until the first empty ReLU layer. Every pass that goes
    * on defines a variable the equations mention, so the loop ends.
    */
  function Grow(q: Query, A: seq<Node>, t: Table, S: Stages, strict: bool, name: Label)
    : (seq<Node>, Result<(Table, Stages), Fault>)
    decreases |EqVars(q.equList) - t.at.Keys|
  {
    var r := Round(q, A, t, S, strict, name);
    if r.1.Fail? then (r.0, Fail(r.1.error))
    else if !r.1.value.2 then (r.0, Ok((r.1.value.0, r.1.value.1)))
    else
      RoundShrinks(q, A, t, S, strict, name);
      Grow(q, r.0, r.1.value.0, r.1.value.1, strict, name)
  }

  /**
    * The checks after the loop: with `strict`, the outputs are mapped and their nodes are
    * the last layer; every relu constraint and every equation has all its variables mapped.
    */
  function Checked(q: Query, t: Table, S: Stages, strict: bool): Outcome<Fault>
    requires |S| > 0
  {
    if strict && exists v :: v in q.outputVars && v !in t.at then Failed(IndexOutOfRange)
    else if strict && (set v | v in q.outputVars :: t.at[v]) != Elements(S[|S| - 1]) then Failed(UnsupportedTopology)
    else if exists c :: c in q.constraints && c.Unary? && c.kind == "relu" && (c.b !in t.at || c.f !in t.at) then
      Failed(UnsupportedTopology)
    else if exists e, p :: e in q.equList && p in e.adds && p.0 !in t.at then Failed(UnsupportedTopology)
    else Pass
  }

  /** `set(layer)`. */
  function Elements(layer: seq<Handle>): set<Handle>
  {
    set h | h in layer
  }

  /** Every key of the table maps to a node of the arena. */
  predicate TableIn(t: Table, n: nat)
  {
    && Listed(t)
    && forall v :: v in t.at ==> t.at[v] < n
  }

  /** `for v in var: var[v].updateLimit(lowerBounds.get(v), upperBounds.get(v))`, from key k on. */
  function CopyBounds(A: seq<Node>, q: Query, t: Table, k: nat): (r: (seq<Node>, Outcome<Fault>))
    requires TableIn(t, |A|)
    ensures |r.0| == |A|
    ensures forall h :: 0 <= h < |A| ==> r.0[h].kind == A[h].kind && r.0[h].name == A[h].name
    ensures forall h :: 0 <= h < |A| && h !in Image(t.at) ==> r.0[h] == A[h]
    decreases |t.order| - k
  {
    if k >= |t.order| then (A, Pass)
    else
      var v := t.order[k];
      var h := t.at[v];
      var lo, hi := Get(q.lowerBounds, v), Get(q.upperBounds, v);
      var A' := A[h := A[h].(limit := Narrow(A[h].limit, lo, hi))];
      assert h in Image(t.at);
      if !LimitAccepted(A'[h].limit, lo, hi) then (A', Failed(InvalidBounds))
      else CopyBounds(A', q, t, k + 1)
  }

  /** `v.input` of a node: ReLU and Abs nodes have one; on other nodes the attribute is missing. */
  function InputOf(k: Kind): Option<Handle>
  {
    match k
    case ReLU(x, _) => Some(x)
    case Abs(x) => Some(x)
    case _ => None
  }

  /** The first loop of a pairing: each ReLU from `j` on with its input, which must be in `sums`. */
  function PairsFrom(A: seq<Node>, sums: seq<Handle>, relus: seq<Handle>, j: nat, pairs: Layer, used: seq<Handle>)
    : Result<(Layer, seq<Handle>), Fault>
    requires forall j :: 0 <= j < |relus| ==> relus[j] < |A|
    decreases |relus| - j
  {
    if j >= |relus| then Ok((pairs, used))
    else
      var v := relus[j];
      match InputOf(A[v].kind)
      case None => Fail(UnsupportedTopology)
      case Some(x) =>
        if x !in sums then Fail(UnsupportedTopology)
        else PairsFrom(A, sums, relus, j + 1, pairs + [[x, v]], used + [v, x])
  }

  /** The second loop: every node from `j` on not used by a pair becomes a chain of its own. */
  function SinglesFrom(vs: seq<Handle>, used: seq<Handle>, j: nat, pairs: Layer): Layer
    decreases |vs| - j
  {
    if j >= |vs| then pairs
    else SinglesFrom(vs, used, j + 1, if vs[j] in used then pairs else pairs + [[vs[j]]])
  }

  /** One neuron layer of `combined`: a sum layer and the ReLU layer after it. */
  function Paired(A: seq<Node>, sums: seq<Handle>, relus: seq<Handle>): Result<Layer, Fault>
    requires forall j :: 0 <= j < |relus| ==> relus[j] < |A|
  {
    var (pairs, used) :- PairsFrom(A, sums, relus, 0, [], []);
    Ok(SinglesFrom(sums + relus, used, 0, pairs))
  }

  /** `[[x] for x in layer]`. */
  function Singletons(layer: seq<Handle>): (r: Layer)
    ensures |r| == |layer| && forall c :: 0 <= c < |r| ==> r[c] == [layer[c]]
  {
    seq(|layer|, c requires 0 <= c < |layer| => [layer[c]])
  }

  /** Every handle of the stages names a node of the arena. */
  predicate StagesIn(S: Stages, n: nat)
  {
    forall i, j :: 0 <= i < |S| && 0 <= j < |S[i]| ==> S[i][j] < n
  }

  /** The pairing loop over i = 1, 3, ... below |S| - 1, then the last layer as singletons. */
  function CombineFrom(A: seq<Node>, S: Stages, i: nat, acc: Layers): Result<Layers, Fault>
    requires |S| > 0 && StagesIn(S, |A|)
    decreases |S| - i
  {
    if i + 1 >= |S| then Ok(acc + [Singletons(S[|S| - 1])])
    else
      var p :- Paired(A, S[i], S[i + 1]);
      CombineFrom(A, S, i + 2, acc + [p])
  }

  /** The `combined` layers: the inputs as singletons, the paired layers, the last sums. */
  function Combine(A: seq<Node>, S: Stages): Result<Layers, Fault>
    requires |S| > 0 && StagesIn(S, |A|)
  {
    CombineFrom(A, S, 1, [Singletons(S[0])])
  }

  // ---------------------------------------------------------------------------
  // What the rounds keep: the arena grows, and the stages are closed under reading

  /** A solved equation reads mapped nodes only. */
  lemma SolvedReads(e: Linear, nv: int, nc: real, at: map<int, Handle>)
    requires OthersMapped(e.adds, nv, at)
    ensures forall y :: y in ConnectedTo(Solved(e, nv, nc, at)) ==> y in Image(at)
  {
    var ts := Terms(e.adds, nv, at, 0.0 - nc);
    forall y | y in ConnectedTo(Solved(e, nv, nc, at)) ensures y in Image(at) {
      var i :| 0 <= i < |TermNodes(ts)| && TermNodes(ts)[i] == y;
      assert ts[i].1 == y;
    }
  }

  /** The arena only grows, and its new nodes read mapped nodes only. */
  predicate Grown(A: seq<Node>, B: seq<Node>, at: map<int, Handle>)
  {
    && |A| <= |B| && B[..|A|] == A
    && forall h :: |A| <= h < |B| ==> forall y :: y in ConnectedTo(B[h].kind) ==> y in Image(at)
  }

  lemma GrownTrans(A: seq<Node>, A': seq<Node>, B: seq<Node>, at: map<int, Handle>)
    requires Grown(A, A', at) && Grown(A', B, at)
    ensures Grown(A, B, at)
  {
    assert B[..|A|] == B[..|A'|][..|A|];
    forall h | |A| <= h < |A'| ensures B[h] == A'[h] {
      assert B[..|A'|][h] == B[h];
    }
  }

  /**
    * A layer and its `dvar` list, extended by the nodes `base` to `top` the arena gained:
    * each with its variable, no variable twice.
    */
  predicate Appended(base: nat, top: nat, layer: seq<Handle>, dvar: seq<(int, Handle)>,
                     layer': seq<Handle>, dvar': seq<(int, Handle)>)
  {
    && base <= top
    && |layer'| == |dvar'| == |layer| + (top - base) && layer'[..|layer|] == layer
    && DistinctKeys(dvar')
    && (forall j :: 0 <= j < |dvar'| ==> dvar'[j].1 == layer'[j])
    && forall j :: |layer| <= j < |layer'| ==> layer'[j] == base + (j - |layer|)
  }

  /** One more node, at `base`, then the rest. */
  lemma AppendedStep(base: nat, top: nat, layer: seq<Handle>, dvar: seq<(int, Handle)>, v: int,
                     layer': seq<Handle>, dvar': seq<(int, Handle)>)
    requires Appended(base + 1, top, layer + [base], dvar + [(v, base)], layer', dvar')
    ensures Appended(base, top, layer, dvar, layer', dvar')
  {
    var n := |layer|;
    assert layer'[..n] == layer'[..n + 1][..n];
    assert layer'[n] == layer'[..n + 1][n];
  }

  lemma FreshKey(dvar: seq<(int, Handle)>, v: int, h: Handle)
    requires DistinctKeys(dvar) && v !in Keys(dvar)
    ensures DistinctKeys(dvar + [(v, h)])
  {
    forall i | 0 <= i < |dvar| ensures dvar[i].0 != v {
      assert dvar[i].0 in Keys(dvar);
    }
  }

  /** A sum layer appends its nodes to the arena, each reading mapped nodes only. */
  lemma {:induction false} SumLayerShape(eqs: seq<Linear>, at: map<int, Handle>, A: seq<Node>, l: nat, strict: bool,
                                         name: Label, e: nat, layer: seq<Handle>, dvar: seq<(int, Handle)>)
    requires |layer| == |dvar| && DistinctKeys(dvar) && forall j :: 0 <= j < |dvar| ==> dvar[j].1 == layer[j]
    ensures var x := SumLayer(eqs, at, A, l, strict, name, e, layer, dvar);
      Grown(A, x.0, at) && (x.1.Ok? ==> Appended(|A|, |x.0|, layer, dvar, x.1.value.0, x.1.value.1))
    decreases |eqs| - e
  {
    assert A[..|A|] == A;
    if e < |eqs| {
      match Defines(eqs[e], at, strict)
      case Fail(_) =>
      case Ok(None) =>
        SumLayerShape(eqs, at, A, l, strict, name, e + 1, layer, dvar);
      case Ok(Some((nv, nc))) =>
        var A' := A + [Node(Solved(eqs[e], nv, nc, at), Unbounded, Some(name(SumRole, l, |layer|)))];
        SolvedReads(eqs[e], nv, nc, at);
        assert Grown(A, A', at) by {
          assert A'[..|A|] == A;
        }
        if nv !in Keys(dvar) {
          var layer', dvar' := layer + [|A|], dvar + [(nv, |A|)];
          FreshKey(dvar, nv, |A|);
          SumLayerShape(eqs, at, A', l, strict, name, e + 1, layer', dvar');
          var x := SumLayer(eqs, at, A', l, strict, name, e + 1, layer', dvar');
          GrownTrans(A, A', x.0, at);
          if x.1.Ok? {
            AppendedStep(|A|, |x.0|, layer, dvar, nv, x.1.value.0, x.1.value.1);
          }
        }
    }
  }

  /** A ReLU layer appends its nodes to the arena, each reading a mapped node. */
  lemma {:induction false} ReluLayerShape(cs: seq<Piecewise>, at: map<int, Handle>, A: seq<Node>, l: nat, name: Label,
                                          c: nat, layer: seq<Handle>, dvar: seq<(int, Handle)>)
    requires |layer| == |dvar| && DistinctKeys(dvar) && forall j :: 0 <= j < |dvar| ==> dvar[j].1 == layer[j]
    ensures var x := ReluLayer(cs, at, A, l, name, c, layer, dvar);
      Grown(A, x.0, at) && (x.1.Ok? ==> Appended(|A|, |x.0|, layer, dvar, x.1.value.0, x.1.value.1))
    decreases |cs| - c
  {
    assert A[..|A|] == A;
    if c < |cs| {
      match ReluOf(cs[c], at)
      case Fail(_) =>
      case Ok(None) =>
        ReluLayerShape(cs, at, A, l, name, c + 1, layer, dvar);
      case Ok(Some((vf, input))) =>
        var A' := A + [Node(ReLU(input, false), Unbounded, Some(name(ReluRole, l, |layer|)))];
        assert input in Image(at);
        assert Grown(A, A', at) by {
          assert A'[..|A|] == A;
        }
        if vf !in Keys(dvar) {
          var layer', dvar' := layer + [|A|], dvar + [(vf, |A|)];
          FreshKey(dvar, vf, |A|);
          ReluLayerShape(cs, at, A', l, name, c + 1, layer', dvar');
          var x := ReluLayer(cs, at, A', l, name, c + 1, layer', dvar');
          GrownTrans(A, A', x.0, at);
          if x.1.Ok? {
            AppendedStep(|A|, |x.0|, layer, dvar, vf, x.1.value.0, x.1.value.1);
          }
        }
    }
  }

  /** Every node the stages hold. */
  function Members(S: Stages): set<Handle>
  {
    set i, j | 0 <= i < |S| && 0 <= j < |S[i]| :: S[i][j]
  }

  lemma MembersAppend(S: Stages, layer: seq<Handle>)
    ensures Members(S + [layer]) == Members(S) + Elements(layer)
  {
    var S' := S + [layer];
    forall x | x in Members(S') ensures x in Members(S) + Elements(layer) {
      var i, j :| 0 <= i < |S'| && 0 <= j < |S'[i]| && S'[i][j] == x;
      if i < |S| {
        assert S[i][j] == x;
      }
    }
    forall x | x in Members(S) ensures x in Members(S') {
      var i, j :| 0 <= i < |S| && 0 <= j < |S[i]| && S[i][j] == x;
      assert S'[i][j] == x;
    }
    forall x | x in Elements(layer) ensures x in Members(S') {
      var j :| 0 <= j < |layer| && layer[j] == x;
      assert S'[|S|][j] == x;
    }
  }

  /**
    * The state between rounds: the table and the stages name nodes of the arena, the
    * table maps into the stages, and the nodes of the stages read nodes of the stages only.
    */
  predicate Closed(A: seq<Node>, t: Table, S: Stages)
  {
    && |S| > 0 && TableIn(t, |A|) && StagesIn(S, |A|)
    && Image(t.at) <= Members(S)
    && forall h :: h in Members(S) && h < |A| ==> forall y :: y in ConnectedTo(A[h].kind) ==> y in Members(S)
  }

  /** No node of the stages lies below `base`: the nodes that were in the arena before. */
  predicate Above(S: Stages, base: nat)
  {
    forall i, j :: 0 <= i < |S| && 0 <= j < |S[i]| ==> base <= S[i][j]
  }

  /** A layer of new nodes reading mapped nodes keeps the state closed. */
  lemma ClosedStep(A: seq<Node>, t: Table, S: Stages, B: seq<Node>, layer: seq<Handle>, d: seq<(int, Handle)>, base: nat)
    requires Closed(A, t, S) && Grown(A, B, t.at) && Appended(|A|, |B|, [], [], layer, d)
    requires Above(S, base) && base <= |A|
    ensures Closed(B, Update(t, d), S + [layer]) && Above(S + [layer], base)
  {
    var t', S' := Update(t, d), S + [layer];
    MembersAppend(S, layer);
    UpdateValues(t, d);
    LayerHandles(layer, d);
    StepStages(A, B, S, layer, base);
    assert Image(t'.at) <= Members(S');
    forall v | v in t'.at ensures t'.at[v] < |B| {
      assert t'.at[v] in Image(t'.at);
      var i, j :| 0 <= i < |S'| && 0 <= j < |S'[i]| && S'[i][j] == t'.at[v];
    }
    StepReads(A, B, t.at, S, layer);
  }

  /** The variables of a `dvar` list name the nodes of its layer. */
  lemma LayerHandles(layer: seq<Handle>, d: seq<(int, Handle)>)
    requires |d| == |layer| && forall j :: 0 <= j < |d| ==> d[j].1 == layer[j]
    ensures Handles(d) <= Elements(layer)
  {
    forall x | x in Handles(d) ensures x in Elements(layer) {
      var j :| 0 <= j < |d| && d[j].1 == x;
      assert layer[j] == x;
    }
  }

  /** A layer of the nodes appended from |A| to |B| keeps the stages in the arena and above `base`. */
  lemma StepStages(A: seq<Node>, B: seq<Node>, S: Stages, layer: seq<Handle>, base: nat)
    requires StagesIn(S, |A|) && Above(S, base) && base <= |A| <= |B|
    requires |layer| == |B| - |A| && forall j :: 0 <= j < |layer| ==> layer[j] == |A| + j
    ensures StagesIn(S + [layer], |B|) && Above(S + [layer], base)
  {
    var S' := S + [layer];
    forall i, j | 0 <= i < |S'| && 0 <= j < |S'[i]| ensures base <= S'[i][j] < |B| {
      if i < |S| {
        assert S'[i][j] == S[i][j];
      }
    }
  }

  /** The nodes of a closed state and the new nodes, which read mapped nodes, read only members. */
  lemma StepReads(A: seq<Node>, B: seq<Node>, at: map<int, Handle>, S: Stages, layer: seq<Handle>)
    requires forall h :: h in Members(S) && h < |A| ==> forall y :: y in ConnectedTo(A[h].kind) ==> y in Members(S)
    requires Grown(A, B, at) && Image(at) <= Members(S)
    requires Members(S + [layer]) == Members(S) + Elements(layer)
    requires forall j :: 0 <= j < |layer| ==> |A| <= layer[j]
    ensures forall h :: h in Members(S + [layer]) && h < |B| ==>
              forall y :: y in ConnectedTo(B[h].kind) ==> y in Members(S + [layer])
  {
    forall h | h in Members(S + [layer]) && h < |B|
      ensures forall y :: y in ConnectedTo(B[h].kind) ==> y in Members(S + [layer])
    {
      if h < |A| {
        assert h !in Elements(layer);
        assert B[..|A|][h] == B[h];
      }
    }
  }

  /** The input loop appends one plain node per input variable and lists them in order. */
  lemma InputsArena(A: seq<Node>, vars: seq<int>, name: Label, i: nat, layer: seq<Handle>, t: Table)
    requires i <= |vars|
    ensures var x := InputsFrom(A, vars, name, i, layer, t);
      && |x.0| == |A| + (|vars| - i) && x.0[..|A|] == A
      && (forall h :: |A| <= h < |x.0| ==> x.0[h].kind == Plain)
      && |x.1| == |layer| + (|vars| - i) && x.1[..|layer|] == layer
      && (forall j :: |layer| <= j < |x.1| ==> x.1[j] == |A| + (j - |layer|))
  {
    InputsNodes(A, vars, name, i, layer, t);
    InputsHandles(A, vars, name, i, layer, t);
  }

  lemma {:induction false} InputsNodes(A: seq<Node>, vars: seq<int>, name: Label, i: nat, layer: seq<Handle>, t: Table)
    requires i <= |vars|
    ensures |InputsFrom(A, vars, name, i, layer, t).0| == |A| + (|vars| - i)
    ensures InputsFrom(A, vars, name, i, layer, t).0[..|A|] == A
    ensures forall h :: |A| <= h < |InputsFrom(A, vars, name, i, layer, t).0| ==> InputsFrom(A, vars, name, i, layer, t).0[h].kind == Plain
    decreases |vars| - i
  {
    if i < |vars| {
      var n := Node(Plain, Unbounded, Some(name(InputRole, 0, i)));
      var A', layer', t' := A + [n], layer + [|A|], Put(t, vars[i], |A|);
      InputsNodes(A', vars, name, i + 1, layer', t');
      assert InputsFrom(A, vars, name, i, layer, t) == InputsFrom(A', vars, name, i + 1, layer', t');
      PlainAppended(A, n, InputsFrom(A', vars, name, i + 1, layer', t').0);
    } else {
      assert A[..|A|] == A;
    }
  }

  /** Plain nodes after `A + [n]`, with n plain, are plain nodes after `A`. */
  lemma PlainAppended(A: seq<Node>, n: Node, R: seq<Node>)
    requires n.kind == Plain && |A| + 1 <= |R| && R[..|A| + 1] == A + [n]
    requires forall h :: |A| + 1 <= h < |R| ==> R[h].kind == Plain
    ensures R[..|A|] == A && forall h :: |A| <= h < |R| ==> R[h].kind == Plain
  {
    assert R[..|A|] == R[..|A| + 1][..|A|];
    assert R[|A|] == R[..|A| + 1][|A|];
  }

  lemma {:induction false} InputsHandles(A: seq<Node>, vars: seq<int>, name: Label, i: nat, layer: seq<Handle>, t: Table)
    requires i <= |vars|
    ensures |InputsFrom(A, vars, name, i, layer, t).1| == |layer| + (|vars| - i)
    ensures InputsFrom(A, vars, name, i, layer, t).1[..|layer|] == layer
    ensures forall j :: |layer| <= j < |InputsFrom(A, vars, name, i, layer, t).1| ==>
              InputsFrom(A, vars, name, i, layer, t).1[j] == |A| + (j - |layer|)
    decreases |vars| - i
  {
    if i < |vars| {
      var n := Node(Plain, Unbounded, Some(name(InputRole, 0, i)));
      var A', layer', t' := A + [n], layer + [|A|], Put(t, vars[i], |A|);
      InputsHandles(A', vars, name, i + 1, layer', t');
      assert InputsFrom(A, vars, name, i, layer, t) == InputsFrom(A', vars, name, i + 1, layer', t');
      CountAppended(layer, |A|, InputsFrom(A', vars, name, i + 1, layer', t').1);
    } else {
      assert layer[..|layer|] == layer;
    }
  }

  /** Handles counting up from a + 1 after `layer + [a]` count up from a after `layer`. */
  lemma CountAppended(layer: seq<Handle>, a: nat, R: seq<Handle>)
    requires |layer| + 1 <= |R| && R[..|layer| + 1] == layer + [a]
    requires forall j :: |layer| + 1 <= j < |R| ==> R[j] == a + 1 + (j - (|layer| + 1))
    ensures R[..|layer|] == layer && forall j :: |layer| <= j < |R| ==> R[j] == a + (j - |layer|)
  {
    assert R[..|layer|] == R[..|layer| + 1][..|layer|];
    assert R[|layer|] == R[..|layer| + 1][|layer|];
  }

  /** The input loop maps each input variable to one of its new nodes. */
  lemma InputsTable(A: seq<Node>, vars: seq<int>, name: Label, i: nat, layer: seq<Handle>, t: Table)
    requires i <= |vars|
    ensures var x := InputsFrom(A, vars, name, i, layer, t);
      && (Listed(t) ==> Listed(x.2))
      && (forall v :: v in x.2.at ==> x.2.at[v] in Image(t.at) || |A| <= x.2.at[v] < |A| + (|vars| - i))
      && x.2.at.Keys == t.at.Keys + (set k | i <= k < |vars| :: vars[k])
  {
    InputsListed(A, vars, name, i, layer, t);
    InputsImage(A, vars, name, i, layer, t);
    InputsKeys(A, vars, name, i, layer, t);
  }

  lemma {:induction false} InputsListed(A: seq<Node>, vars: seq<int>, name: Label, i: nat, layer: seq<Handle>, t: Table)
    requires i <= |vars|
    ensures Listed(t) ==> Listed(InputsFrom(A, vars, name, i, layer, t).2)
    decreases |vars| - i
  {
    if i < |vars| {
      var A' := A + [Node(Plain, Unbounded, Some(name(InputRole, 0, i)))];
      InputsListed(A', vars, name, i + 1, layer + [|A|], Put(t, vars[i], |A|));
    }
  }

  lemma {:induction false} InputsImage(A: seq<Node>, vars: seq<int>, name: Label, i: nat, layer: seq<Handle>, t: Table)
    requires i <= |vars|
    ensures forall v :: v in InputsFrom(A, vars, name, i, layer, t).2.at ==>
              InputsFrom(A, vars, name, i, layer, t).2.at[v] in Image(t.at) ||
              |A| <= InputsFrom(A, vars, name, i, layer, t).2.at[v] < |A| + (|vars| - i)
    decreases |vars| - i
  {
    if i < |vars| {
      var A' := A + [Node(Plain, Unbounded, Some(name(InputRole, 0, i)))];
      var t' := Put(t, vars[i], |A|);
      InputsImage(A', vars, name, i + 1, layer + [|A|], t');
      var x := InputsFrom(A', vars, name, i + 1, layer + [|A|], t');
      assert forall v :: v in x.2.at ==> x.2.at[v] in Image(t'.at) || |A'| <= x.2.at[v] < |A'| + (|vars| - (i + 1));
      assert x == InputsFrom(A, vars, name, i, layer, t);
      forall v | v in x.2.at ensures x.2.at[v] in Image(t.at) || |A| <= x.2.at[v] < |A| + (|vars| - i) {
        var h := x.2.at[v];
        assert |A'| == |A| + 1;
        assert h in Image(t'.at) || |A'| <= h < |A'| + (|vars| - (i + 1)) by {
          assert v in x.2.at;
          assert x.2.at[v] in Image(t'.at) || |A'| <= x.2.at[v] < |A'| + (|vars| - (i + 1));
        }
        if h in Image(t'.at) {
          var w :| w in t'.at && t'.at[w] == h;
          if w != vars[i] {
            assert w in t.at && t.at[w] == h;
            assert h in Image(t.at);
          } else {
            assert h == |A|;
          }
        }
      }
    }
  }

  lemma {:induction false} InputsKeys(A: seq<Node>, vars: seq<int>, name: Label, i: nat, layer: seq<Handle>, t: Table)
    requires i <= |vars|
    ensures InputsFrom(A, vars, name, i, layer, t).2.at.Keys == t.at.Keys + (set k | i <= k < |vars| :: vars[k])
    decreases |vars| - i
  {
    if i < |vars| {
      var A' := A + [Node(Plain, Unbounded, Some(name(InputRole, 0, i)))];
      InputsKeys(A', vars, name, i + 1, layer + [|A|], Put(t, vars[i], |A|));
      PutKeys(t, vars[i], |A|);
      SuffixValues(vars, i);
    }
  }

  lemma PutKeys(t: Table, v: int, h: Handle)
    ensures Put(t, v, h).at.Keys == t.at.Keys + {v}
  {
  }

  /** The values from position `i` on are the one at `i` and those after it. */
  lemma SuffixValues(vars: seq<int>, i: nat)
    requires i < |vars|
    ensures (set k | i <= k < |vars| :: vars[k]) == {vars[i]} + (set k | i + 1 <= k < |vars| :: vars[k])
  {
    var S, S1 := (set k | i <= k < |vars| :: vars[k]), (set k | i + 1 <= k < |vars| :: vars[k]);
    forall y | y in S ensures y in {vars[i]} + S1 {
      var k :| i <= k < |vars| && vars[k] == y;
      if k > i {
        assert y in S1;
      }
    }
    forall y | y in S1 ensures y in S {
      var k :| i + 1 <= k < |vars| && vars[k] == y;
    }
  }

  /**
    * The state after the input loop over `vars`: the arena extends `A`, the inputs form the
    * only stage, above `A`, and the table knows exactly the input variables.
    */
  predicate InputsDone(A: seq<Node>, vars: seq<int>, x: (seq<Node>, seq<Handle>, Table))
  {
    && |A| <= |x.0| && x.0[..|A|] == A && Closed(x.0, x.2, [x.1]) && Above([x.1], |A|)
    && x.2.at.Keys == set k | 0 <= k < |vars| :: vars[k]
  }

  /** After the input loop the state is closed, with the inputs as the only stage. */
  lemma InputsClosed(A: seq<Node>, vars: seq<int>, name: Label)
    ensures InputsDone(A, vars, InputsFrom(A, vars, name, 0, [], Empty))
  {
    InputsArena(A, vars, name, 0, [], Empty);
    InputsTable(A, vars, name, 0, [], Empty);
    InputsDoneOf(A, vars, InputsFrom(A, vars, name, 0, [], Empty));
  }

  /** The facts the input loop establishes, in the form InputsDone asks for. */
  lemma InputsDoneOf(A: seq<Node>, vars: seq<int>, x: (seq<Node>, seq<Handle>, Table))
    requires |x.0| == |A| + |vars| && x.0[..|A|] == A
    requires forall h :: |A| <= h < |x.0| ==> x.0[h].kind == Plain
    requires |x.1| == |vars| && forall j :: 0 <= j < |x.1| ==> x.1[j] == |A| + j
    requires Listed(x.2)
    requires forall v :: v in x.2.at ==> |A| <= x.2.at[v] < |A| + |vars|
    requires x.2.at.Keys == set k | 0 <= k < |vars| :: vars[k]
    ensures InputsDone(A, vars, x)
  {
    MembersAppend([], x.1);
    assert Members([]) == {};
    forall x' | x' in Elements(x.1) ensures |A| <= x' < |x.0| {
      var j :| 0 <= j < |x.1| && x.1[j] == x';
    }
    forall h | |A| <= h < |x.0| ensures h in Elements(x.1) {
      assert x.1[h - |A|] == h;
    }
    assert Image(x.2.at) <= Elements(x.1) by {
      forall y | y in Image(x.2.at) ensures y in Elements(x.1) {
        var v :| v in x.2.at && x.2.at[v] == y;
      }
    }
    forall v | v in x.2.at ensures x.2.at[v] < |x.0| {
      assert x.2.at[v] in Image(x.2.at);
    }
  }

  /** A sum layer keeps the state closed. */
  lemma SumsClosed(q: Query, A: seq<Node>, t: Table, S: Stages, strict: bool, name: Label, base: nat)
    requires Closed(A, t, S) && Above(S, base) && base <= |A|
    ensures var sums := SumLayer(q.equList, t.at, A, |S|, strict, name, 0, [], []);
      && |A| <= |sums.0| && sums.0[..|A|] == A
      && (sums.1.Ok? ==>
            var S1 := S + [sums.1.value.0];
            Closed(sums.0, Update(t, sums.1.value.1), S1) && Above(S1, base))
  {
    var sums := SumLayer(q.equList, t.at, A, |S|, strict, name, 0, [], []);
    SumLayerShape(q.equList, t.at, A, |S|, strict, name, 0, [], []);
    if sums.1.Ok? {
      ClosedStep(A, t, S, sums.0, sums.1.value.0, sums.1.value.1, base);
    }
  }

  /** A ReLU layer keeps the state closed; an empty one changes nothing. */
  lemma RelusClosed(q: Query, A: seq<Node>, t: Table, S: Stages, name: Label, base: nat)
    requires Closed(A, t, S) && Above(S, base) && base <= |A|
    ensures var relus := ReluLayer(q.constraints, t.at, A, |S|, name, 0, [], []);
      && |A| <= |relus.0| && relus.0[..|A|] == A
      && (relus.1.Ok? ==>
            var t2 := Update(t, relus.1.value.1);
            && (relus.1.value.0 == [] ==> relus.0 == A && t2 == t)
            && (relus.1.value.0 != [] ==>
                  var S2 := S + [relus.1.value.0];
                  Closed(relus.0, t2, S2) && Above(S2, base)))
  {
    var relus := ReluLayer(q.constraints, t.at, A, |S|, name, 0, [], []);
    ReluLayerShape(q.constraints, t.at, A, |S|, name, 0, [], []);
    if relus.1.Ok? {
      if relus.1.value.0 == [] {
        assert relus.0 == relus.0[..|A|];
      } else {
        ClosedStep(A, t, S, relus.0, relus.1.value.0, relus.1.value.1, base);
      }
    }
  }

  /** A pass keeps the state closed, appends to the arena and adds at least one stage. */
  lemma RoundClosed(q: Query, A: seq<Node>, t: Table, S: Stages, strict: bool, name: Label, base: nat)
    requires Closed(A, t, S) && Above(S, base) && base <= |A|
    ensures var x := Round(q, A, t, S, strict, name);
      && |A| <= |x.0| && x.0[..|A|] == A
      && (x.1.Ok? ==> Closed(x.0, x.1.value.0, x.1.value.1) && Above(x.1.value.1, base) && |S| < |x.1.value.1|)
  {
    SumsClosed(q, A, t, S, strict, name, base);
    var sums := SumLayer(q.equList, t.at, A, |S|, strict, name, 0, [], []);
    if sums.1.Ok? && sums.1.value.0 != [] {
      var t1 := Update(t, sums.1.value.1);
      var S1 := S + [sums.1.value.0];
      RelusClosed(q, sums.0, t1, S1, name, base);
      var relus := ReluLayer(q.constraints, t1.at, sums.0, |S1|, name, 0, [], []);
      assert relus.0[..|A|] == relus.0[..|sums.0|][..|A|];
    }
  }

  /** A pass only appends to the arena, whatever the state. */
  lemma RoundArena(q: Query, A: seq<Node>, t: Table, S: Stages, strict: bool, name: Label)
    ensures var x := Round(q, A, t, S, strict, name);
      |A| <= |x.0| && x.0[..|A|] == A
  {
    var sums := SumLayer(q.equList, t.at, A, |S|, strict, name, 0, [], []);
    SumsPrefix(q.equList, t.at, A, |S|, strict, name);
    if sums.1.Ok? && sums.1.value.0 != [] {
      var t1 := Update(t, sums.1.value.1);
      RelusPrefix(q.constraints, t1.at, sums.0, |S| + 1, name);
      PrefixChain(A, sums.0, ReluLayer(q.constraints, t1.at, sums.0, |S| + 1, name, 0, [], []).0);
    }
  }

  /** The equation loop of a pass only appends to the arena. */
  lemma SumsPrefix(eqs: seq<Linear>, at: map<int, Handle>, A: seq<Node>, l: nat, strict: bool, name: Label)
    ensures |A| <= |SumLayer(eqs, at, A, l, strict, name, 0, [], []).0|
    ensures SumLayer(eqs, at, A, l, strict, name, 0, [], []).0[..|A|] == A
  {
    SumLayerShape(eqs, at, A, l, strict, name, 0, [], []);
  }

  /** The constraint loop of a pass only appends to the arena. */
  lemma RelusPrefix(cs: seq<Piecewise>, at: map<int, Handle>, A: seq<Node>, l: nat, name: Label)
    ensures |A| <= |ReluLayer(cs, at, A, l, name, 0, [], []).0|
    ensures ReluLayer(cs, at, A, l, name, 0, [], []).0[..|A|] == A
  {
    ReluLayerShape(cs, at, A, l, name, 0, [], []);
  }

  /** The loop only appends to the arena. */
  lemma {:induction false} GrowArena(q: Query, A: seq<Node>, t: Table, S: Stages, strict: bool, name: Label)
    ensures |A| <= |Grow(q, A, t, S, strict, name).0| && Grow(q, A, t, S, strict, name).0[..|A|] == A
    decreases |EqVars(q.equList) - t.at.Keys|
  {
    RoundArena(q, A, t, S, strict, name);
    var r := Round(q, A, t, S, strict, name);
    if r.1.Ok? && r.1.value.2 {
      RoundShrinks(q, A, t, S, strict, name);
      GrowArena(q, r.0, r.1.value.0, r.1.value.1, strict, name);
      assert Grow(q, A, t, S, strict, name) == Grow(q, r.0, r.1.value.0, r.1.value.1, strict, name);
      PrefixChain(A, r.0, Grow(q, r.0, r.1.value.0, r.1.value.1, strict, name).0);
    }
  }

  /** An extension of an extension of `A` extends `A`. */
  lemma PrefixChain<T>(A: seq<T>, B: seq<T>, C: seq<T>)
    requires |A| <= |B| && B[..|A|] == A && |B| <= |C| && C[..|B|] == B
    ensures |A| <= |C| && C[..|A|] == A
  {
    assert C[..|A|] == C[..|B|][..|A|];
  }

  /**
    * The loop keeps the state closed: the stages end up closed under reading, hold no
    * node below `base`, and number at least one more than before.
    */
  lemma {:induction false} GrowClosed(q: Query, A: seq<Node>, t: Table, S: Stages, strict: bool, name: Label, base: nat)
    requires Closed(A, t, S) && Above(S, base) && base <= |A|
    ensures var x := Grow(q, A, t, S, strict, name);
      x.1.Ok? ==> Closed(x.0, x.1.value.0, x.1.value.1) && Above(x.1.value.1, base) && |S| < |x.1.value.1|
    decreases |EqVars(q.equList) - t.at.Keys|
  {
    RoundClosed(q, A, t, S, strict, name, base);
    var r := Round(q, A, t, S, strict, name);
    if r.1.Ok? && r.1.value.2 {
      RoundShrinks(q, A, t, S, strict, name);
      GrowClosed(q, r.0, r.1.value.0, r.1.value.1, strict, name, base);
    }
  }

  // ---------------------------------------------------------------------------
  // Which nodes the combined layers hold

  /** Every node of a layer's chains. */
  function ChainNodes(layer: Layer): set<Handle>
  {
    set c, k | 0 <= c < |layer| && 0 <= k < |layer[c]| :: layer[c][k]
  }

  lemma ChainNodesAppend(p: Layer, ch: Chain)
    ensures ChainNodes(p + [ch]) == ChainNodes(p) + Elements(ch)
  {
    var p' := p + [ch];
    forall x | x in ChainNodes(p') ensures x in ChainNodes(p) + Elements(ch) {
      var c, k :| 0 <= c < |p'| && 0 <= k < |p'[c]| && p'[c][k] == x;
      if c < |p| {
        assert p[c][k] == x;
      }
    }
    forall x | x in ChainNodes(p) ensures x in ChainNodes(p') {
      var c, k :| 0 <= c < |p| && 0 <= k < |p[c]| && p[c][k] == x;
      assert p'[c][k] == x;
    }
    forall x | x in Elements(ch) ensures x in ChainNodes(p') {
      var k :| 0 <= k < |ch| && ch[k] == x;
      assert p'[|p|][k] == x;
    }
  }

  lemma NodeSetAppend(L: Layers, p: Layer)
    ensures NodeSet(L + [p]) == NodeSet(L) + ChainNodes(p)
  {
    var L' := L + [p];
    forall x | x in NodeSet(L') ensures x in NodeSet(L) + ChainNodes(p) {
      var l, c, k :| 0 <= l < |L'| && 0 <= c < |L'[l]| && 0 <= k < |L'[l][c]| && L'[l][c][k] == x;
      if l < |L| {
        assert L[l][c][k] == x;
      } else {
        assert p[c][k] == x;
      }
    }
    forall x | x in NodeSet(L) ensures x in NodeSet(L') {
      var l, c, k :| 0 <= l < |L| && 0 <= c < |L[l]| && 0 <= k < |L[l][c]| && L[l][c][k] == x;
      assert L'[l][c][k] == x;
    }
    forall x | x in ChainNodes(p) ensures x in NodeSet(L') {
      var c, k :| 0 <= c < |p| && 0 <= k < |p[c]| && p[c][k] == x;
      assert L'[|L|][c][k] == x;
    }
  }

  lemma SingletonsNodes(layer: seq<Handle>)
    ensures ChainNodes(Singletons(layer)) == Elements(layer)
  {
    var p := Singletons(layer);
    forall x | x in ChainNodes(p) ensures x in Elements(layer) {
      var c, k :| 0 <= c < |p| && 0 <= k < |p[c]| && p[c][k] == x;
    }
    forall x | x in Elements(layer) ensures x in ChainNodes(p) {
      var c :| 0 <= c < |layer| && layer[c] == x;
      assert p[c][0] == x;
    }
  }

  /** The first pairing loop lists in its chains exactly the nodes it marks used. */
  lemma {:induction false} PairsNodes(A: seq<Node>, sums: seq<Handle>, relus: seq<Handle>, j: nat, pairs: Layer, used: seq<Handle>)
    requires j <= |relus| && forall k :: 0 <= k < |relus| ==> relus[k] < |A|
    requires ChainNodes(pairs) == Elements(used) && Elements(used) <= Elements(sums) + Elements(relus)
    requires forall k :: 0 <= k < j ==> relus[k] in used
    ensures var r := PairsFrom(A, sums, relus, j, pairs, used);
      r.Ok? ==>
        && ChainNodes(r.value.0) == Elements(r.value.1)
        && Elements(r.value.1) <= Elements(sums) + Elements(relus)
        && Elements(relus) <= Elements(r.value.1)
    decreases |relus| - j
  {
    if j >= |relus| {
      forall x | x in Elements(relus) ensures x in Elements(used) {
        var k :| 0 <= k < |relus| && relus[k] == x;
      }
    } else {
      var v := relus[j];
      match InputOf(A[v].kind)
      case None =>
      case Some(x) =>
        if x in sums {
          ChainNodesAppend(pairs, [x, v]);
          var used' := used + [v, x];
          assert Elements(used') == Elements(used) + {v, x};
          assert Elements([x, v]) == {v, x};
          PairsNodes(A, sums, relus, j + 1, pairs + [[x, v]], used');
        }
    }
  }

  /** The second loop adds, as singletons, the nodes not used. */
  lemma {:induction false} SinglesNodes(vs: seq<Handle>, used: seq<Handle>, j: nat, pairs: Layer)
    requires j <= |vs|
    ensures ChainNodes(SinglesFrom(vs, used, j, pairs))
      == ChainNodes(pairs) + (set k | j <= k < |vs| && vs[k] !in used :: vs[k])
    decreases |vs| - j
  {
    if j < |vs| {
      var pairs' := if vs[j] in used then pairs else pairs + [[vs[j]]];
      SinglesNodes(vs, used, j + 1, pairs');
      ChainNodesAppend(pairs, [vs[j]]);
      assert Elements([vs[j]]) == {vs[j]};
      var rest := set k | j + 1 <= k < |vs| && vs[k] !in used :: vs[k];
      var all := set k | j <= k < |vs| && vs[k] !in used :: vs[k];
      assert all == (if vs[j] in used then {} else {vs[j]}) + rest;
    }
  }

  /** A paired layer holds exactly the nodes of its sum and ReLU layers. */
  lemma PairedNodes(A: seq<Node>, sums: seq<Handle>, relus: seq<Handle>)
    requires forall k :: 0 <= k < |relus| ==> relus[k] < |A|
    ensures var r := Paired(A, sums, relus);
      r.Ok? ==> ChainNodes(r.value) == Elements(sums) + Elements(relus)
  {
    assert ChainNodes([]) == {} == Elements([]);
    PairsNodes(A, sums, relus, 0, [], []);
    var r := PairsFrom(A, sums, relus, 0, [], []);
    if r.Ok? {
      var (pairs, used) := r.value;
      var vs := sums + relus;
      SinglesNodes(vs, used, 0, pairs);
      var rest := set k | 0 <= k < |vs| && vs[k] !in used :: vs[k];
      assert Elements(vs) == Elements(sums) + Elements(relus) by {
        forall x | x in Elements(vs) ensures x in Elements(sums) + Elements(relus) {
          var k :| 0 <= k < |vs| && vs[k] == x;
          if k < |sums| {
            assert sums[k] == x;
          } else {
            assert relus[k - |sums|] == x;
          }
        }
        forall x | x in Elements(sums) ensures x in Elements(vs) {
          var k :| 0 <= k < |sums| && sums[k] == x;
          assert vs[k] == x;
        }
        forall x | x in Elements(relus) ensures x in Elements(vs) {
          var k :| 0 <= k < |relus| && relus[k] == x;
          assert vs[|sums| + k] == x;
        }
      }
      forall x | x in Elements(vs) && x !in Elements(used) ensures x in rest {
        var k :| 0 <= k < |vs| && vs[k] == x;
      }
    }
  }

  /** The stages from `i` on. */
  function StagesFrom(S: Stages, i: nat): set<Handle>
  {
    set k, j | i <= k < |S| && 0 <= j < |S[k]| :: S[k][j]
  }

  lemma StagesFromStep(S: Stages, i: nat)
    requires i < |S|
    ensures StagesFrom(S, i) == Elements(S[i]) + StagesFrom(S, i + 1)
  {
    forall x | x in StagesFrom(S, i) ensures x in Elements(S[i]) + StagesFrom(S, i + 1) {
      var k, j :| i <= k < |S| && 0 <= j < |S[k]| && S[k][j] == x;
    }
    forall x | x in Elements(S[i]) ensures x in StagesFrom(S, i) {
      var j :| 0 <= j < |S[i]| && S[i][j] == x;
    }
  }

  /** The combining loop adds the nodes of the stages from `i` on, and of the last stage. */
  lemma {:induction false} CombineNodes(A: seq<Node>, S: Stages, i: nat, acc: Layers)
    requires |S| > 0 && StagesIn(S, |A|)
    ensures var r := CombineFrom(A, S, i, acc);
      r.Ok? ==> NodeSet(r.value) == NodeSet(acc) + StagesFrom(S, i) + Elements(S[|S| - 1])
    decreases |S| - i
  {
    if i + 1 >= |S| {
      SingletonsNodes(S[|S| - 1]);
      NodeSetAppend(acc, Singletons(S[|S| - 1]));
      if i < |S| {
        StagesFromStep(S, i);
      }
      assert StagesFrom(S, |S|) == {};
    } else {
      PairedNodes(A, S[i], S[i + 1]);
      var p := Paired(A, S[i], S[i + 1]);
      if p.Ok? {
        NodeSetAppend(acc, p.value);
        StagesFromStep(S, i);
        StagesFromStep(S, i + 1);
        CombineNodes(A, S, i + 2, acc + [p.value]);
      }
    }
  }

  /** The combined layers hold exactly the nodes of the stages. */
  lemma CombineMembers(A: seq<Node>, S: Stages)
    requires |S| > 0 && StagesIn(S, |A|)
    ensures Combine(A, S).Ok? ==> NodeSet(Combine(A, S).value) == Members(S)
  {
    var first := Singletons(S[0]);
    SingletonsNodes(S[0]);
    NodeSetAppend([], first);
    assert NodeSet([]) == {};
    CombineNodes(A, S, 1, [first]);
    StagesFromStep(S, 0);
    assert Members(S) == StagesFrom(S, 0);
    if |S| > 1 {
      assert Elements(S[|S| - 1]) <= StagesFrom(S, 1) by {
        forall x | x in Elements(S[|S| - 1]) ensures x in StagesFrom(S, 1) {
          var j :| 0 <= j < |S[|S| - 1]| && S[|S| - 1][j] == x;
        }
      }
    }
  }

  // ---------------------------------------------------------------------------
  // The import

  /**
    * After the rounds: the checks, the bounds copied to the table's nodes, and the
    * stages paired into neurons.
    */
  function Finish(A: seq<Node>, q: Query, t: Table, S: Stages, strict: bool): (seq<Node>, Result<Layers, Fault>)
    requires Closed(A, t, S)
  {
    match Checked(q, t, S, strict)
    case Failed(e) => (A, Fail(e))
    case Pass =>
      var bounded := CopyBounds(A, q, t, 0);
      if bounded.1.Failed? then (bounded.0, Fail(bounded.1.error))
      else (bounded.0, Combine(bounded.0, S))
  }

  /**
    * `import_ipq` once the query is read: the fixed variables become extra inputs, the
    * layers are grown and checked, the table's nodes get the query's bounds, and the
    * stages are paired into neurons. The result carries the inputs the query declares.
    * On failure the nodes already created stay in the arena.
    */
  function Build(A: seq<Node>, q: Query, strict: bool, name: Label): (seq<Node>, Result<(Layers, seq<int>), Fault>)
  {
    var q' := q.(inputVars := q.inputVars + FixedFrom(q, 0));
    var inputs := InputsFrom(A, q'.inputVars, name, 0, [], Empty);
    InputsClosed(A, q'.inputVars, name);
    GrowClosed(q', inputs.0, inputs.2, [inputs.1], strict, name, |A|);
    var grown := Grow(q', inputs.0, inputs.2, [inputs.1], strict, name);
    if grown.1.Fail? then (grown.0, Fail(grown.1.error))
    else
      var finished := Finish(grown.0, q', grown.1.value.0, grown.1.value.1, strict);
      if finished.1.Fail? then (finished.0, Fail(finished.1.error))
      else (finished.0, Ok((finished.1.value, q.inputVars)))
  }

  /** `import_ipq(ipq, strict)` on the lines of the file, with `NNET_COUNTER` at `counter`. */
  function Import(A: seq<Node>, lines: seq<string>, counter: nat, strict: bool)
    : (seq<Node>, Result<(Layers, seq<int>), Fault>)
  {
    match ParseQuery(lines, Nnet.Python)
    case Fail(e) => (A, Fail(e))
    case Ok(q) => Build(A, q, strict, IpqNaming(counter))
  }

  /** The nodes of the arena the stages do not hold. */
  lemma OutsideStages(A: seq<Node>, t: Table, S: Stages, base: nat, h: Handle)
    requires Closed(A, t, S) && Above(S, base) && h < base
    ensures h !in Image(t.at)
  {
  }

  /**
    * Finishing a closed state gives a sane network; it keeps the arena's length and every
    * node's kind and name, and leaves the nodes below `base` untouched.
    */
  lemma FinishSane(A: seq<Node>, q: Query, t: Table, S: Stages, strict: bool, base: nat)
    requires Closed(A, t, S) && Above(S, base) && base <= |A|
    ensures var x := Finish(A, q, t, S, strict);
      && |x.0| == |A| && x.0[..base] == A[..base]
      && (x.1.Ok? ==> SaneIn(x.1.value, x.0))
  {
    if Checked(q, t, S, strict).Pass? {
      var bounded := CopyBounds(A, q, t, 0);
      var B := bounded.0;
      forall h | 0 <= h < base ensures B[h] == A[h] {
        OutsideStages(A, t, S, base, h);
      }
      CombineMembers(B, S);
      var r := Combine(B, S);
      if r.Ok? {
        var L := r.value;
        forall h | h in NodeSet(L) ensures h < |B| && forall y :: y in ConnectedTo(B[h].kind) ==> y in NodeSet(L) {
          var i, j :| 0 <= i < |S| && 0 <= j < |S[i]| && S[i][j] == h;
        }
      }
    }
  }

  /**
    * What the import builds is a sane network: its nodes are in the arena and read only
    * nodes of the network; the nodes the arena held before are untouched; the inputs
    * returned are the declared ones.
    */
  lemma BuildSane(A: seq<Node>, q: Query, strict: bool, name: Label)
    ensures var x := Build(A, q, strict, name);
      && |A| <= |x.0| && x.0[..|A|] == A
      && (x.1.Ok? ==> SaneIn(x.1.value.0, x.0) && x.1.value.1 == q.inputVars)
  {
    var q' := q.(inputVars := q.inputVars + FixedFrom(q, 0));
    var inputs := InputsFrom(A, q'.inputVars, name, 0, [], Empty);
    InputsClosed(A, q'.inputVars, name);
    GrowClosed(q', inputs.0, inputs.2, [inputs.1], strict, name, |A|);
    GrowArena(q', inputs.0, inputs.2, [inputs.1], strict, name);
    var grown := Grow(q', inputs.0, inputs.2, [inputs.1], strict, name);
    assert grown.0[..|A|] == grown.0[..|inputs.0|][..|A|];
    if grown.1.Ok? {
      FinishSane(grown.0, q', grown.1.value.0, grown.1.value.1, strict, |A|);
    }
  }

  // ---------------------------------------------------------------------------
  // Building, as the source does it

  /** The input loop: a named plain node per input variable, each put in the table. */
  method BuildInputs(g: Graph, vars: seq<int>, name: Label) returns (layer: seq<Handle>, t: Table)
    modifies g
    ensures (g.nodes, layer, t) == InputsFrom(old(g.nodes), vars, name, 0, [], Empty)
  {
    layer, t := [], Empty;
    var i := 0;
    while i < |vars|
      invariant i <= |vars|
      invariant InputsFrom(g.nodes, vars, name, i, layer, t) == InputsFrom(old(g.nodes), vars, name, 0, [], Empty)
    {
      var n := g.Add(Node(Plain, Unbounded, Some(name(InputRole, 0, i))));
      layer := layer + [n];
      t := Put(t, vars[i], n);
      i := i + 1;
    }
  }

  /**
    * `build_weighted_sum`: a named sum node per equation that defines a variable; the
    * table returned is the one after `var.update(dvar)`.
    */
  method BuildWeightedSum(g: Graph, q: Query, t: Table, l: nat, strict: bool, name: Label)
    returns (res: Result<(seq<Handle>, Table), Fault>)
    modifies g
    ensures var x := SumLayer(q.equList, t.at, old(g.nodes), l, strict, name, 0, [], []);
      && g.nodes == x.0
      && (res.Ok? <==> x.1.Ok?)
      && (res.Ok? ==> res.value == (x.1.value.0, Update(t, x.1.value.1)))
      && (res.Fail? ==> res.error == x.1.error)
  {
    var layer: seq<Handle> := [];
    var dvar: seq<(int, Handle)> := [];
    var e := 0;
    while e < |q.equList|
      invariant e <= |q.equList|
      invariant SumLayer(q.equList, t.at, g.nodes, l, strict, name, e, layer, dvar)
             == SumLayer(q.equList, t.at, old(g.nodes), l, strict, name, 0, [], [])
    {
      var d := Defines(q.equList[e], t.at, strict);
      if d.Fail? {
        return Fail(d.error);
      }
      if d.value.Some? {
        var (nv, nc) := d.value.value;
        var n := g.Add(Node(Solved(q.equList[e], nv, nc, t.at), Unbounded, Some(name(SumRole, l, |layer|))));
        layer := layer + [n];
        if nv in Keys(dvar) {
          return Fail(UnsupportedTopology);
        }
        dvar := dvar + [(nv, n)];
      }
      e := e + 1;
    }
    res := Ok((layer, Update(t, dvar)));
  }

  /** `build_relu`: a named ReLU node per constraint that defines a variable, then `var.update(dvar)`. */
  method BuildRelu(g: Graph, q: Query, t: Table, l: nat, name: Label) returns (res: Result<(seq<Handle>, Table), Fault>)
    modifies g
    ensures var x := ReluLayer(q.constraints, t.at, old(g.nodes), l, name, 0, [], []);
      && g.nodes == x.0
      && (res.Ok? <==> x.1.Ok?)
      && (res.Ok? ==> res.value == (x.1.value.0, Update(t, x.1.value.1)))
      && (res.Fail? ==> res.error == x.1.error)
  {
    var layer: seq<Handle> := [];
    var dvar: seq<(int, Handle)> := [];
    var c := 0;
    while c < |q.constraints|
      invariant c <= |q.constraints|
      invariant ReluLayer(q.constraints, t.at, g.nodes, l, name, c, layer, dvar)
             == ReluLayer(q.constraints, t.at, old(g.nodes), l, name, 0, [], [])
    {
      var r := ReluOf(q.constraints[c], t.at);
      if r.Fail? {
        return Fail(r.error);
      }
      if r.value.Some? {
        var (vf, input) := r.value.value;
        var n := g.Add(Node(ReLU(input, false), Unbounded, Some(name(ReluRole, l, |layer|))));
        layer := layer + [n];
        if vf in Keys(dvar) {
          return Fail(UnsupportedTopology);
        }
        dvar := dvar + [(vf, n)];
      }
      c := c + 1;
    }
    res := Ok((layer, Update(t, dvar)));
  }

  /** The `while True` loop: sum layers and ReLU layers in turn, until a ReLU layer is empty. */
  method GrowLayers(g: Graph, q: Query, t0: Table, S0: Stages, strict: bool, name: Label)
    returns (res: Result<(Table, Stages), Fault>)
    modifies g
    ensures (g.nodes, res) == Grow(q, old(g.nodes), t0, S0, strict, name)
  {
    var t, S := t0, S0;
    while true
      invariant Grow(q, g.nodes, t, S, strict, name) == Grow(q, old(g.nodes), t0, S0, strict, name)
      decreases |EqVars(q.equList) - t.at.Keys|
    {
      RoundShrinks(q, g.nodes, t, S, strict, name);
      var sums := BuildWeightedSum(g, q, t, |S|, strict, name);
      if sums.Fail? {
        return Fail(sums.error);
      }
      if sums.value.0 == [] {
        return Fail(UnsupportedTopology);
      }
      S := S + [sums.value.0];
      var relus := BuildRelu(g, q, sums.value.1, |S|, name);
      if relus.Fail? {
        return Fail(relus.error);
      }
      t := relus.value.1;
      if relus.value.0 == [] {
        break;
      }
      S := S + [relus.value.0];
    }
    res := Ok((t, S));
  }

  /** `for v in var: var[v].updateLimit(lowerBounds.get(v), upperBounds.get(v))`. */
  method CopyLimits(g: Graph, q: Query, t: Table) returns (o: Outcome<Fault>)
    requires TableIn(t, |g.nodes|)
    modifies g
    ensures (g.nodes, o) == CopyBounds(old(g.nodes), q, t, 0)
  {
    var k := 0;
    while k < |t.order|
      invariant k <= |t.order| && |g.nodes| == |old(g.nodes)|
      invariant CopyBounds(g.nodes, q, t, k) == CopyBounds(old(g.nodes), q, t, 0)
    {
      var v := t.order[k];
      var ok := g.UpdateLimit(t.at[v], Get(q.lowerBounds, v), Get(q.upperBounds, v));
      if !ok {
        return Failed(InvalidBounds);
      }
      k := k + 1;
    }
    o := Pass;
  }

  /** One neuron layer of `combined`: each ReLU with its input, then every unused node alone. */
  method PairLayer(g: Graph, sums: seq<Handle>, relus: seq<Handle>) returns (res: Result<Layer, Fault>)
    requires forall j :: 0 <= j < |relus| ==> relus[j] < |g.nodes|
    ensures res == Paired(g.nodes, sums, relus)
  {
    var pairs: Layer := [];
    var used: seq<Handle> := [];
    var j := 0;
    while j < |relus|
      invariant j <= |relus|
      invariant PairsFrom(g.nodes, sums, relus, j, pairs, used) == PairsFrom(g.nodes, sums, relus, 0, [], [])
    {
      var v := relus[j];
      var x := InputOf(g.nodes[v].kind);
      if x.None? || x.value !in sums {
        return Fail(UnsupportedTopology);
      }
      pairs := pairs + [[x.value, v]];
      used := used + [v, x.value];
      j := j + 1;
    }
    var vs := sums + relus;
    ghost var paired := pairs;
    j := 0;
    while j < |vs|
      invariant j <= |vs|
      invariant SinglesFrom(vs, used, j, pairs) == SinglesFrom(vs, used, 0, paired)
    {
      if vs[j] !in used {
        pairs := pairs + [[vs[j]]];
      }
      j := j + 1;
    }
    res := Ok(pairs);
  }

  /** The `combined` loop: the inputs, the paired layers, then the last layer as singletons. */
  method CombineLayers(g: Graph, S: Stages) returns (res: Result<Layers, Fault>)
    requires |S| > 0 && StagesIn(S, |g.nodes|)
    ensures res == Combine(g.nodes, S)
  {
    var combined: Layers := [Singletons(S[0])];
    var i := 1;
    while i + 1 < |S|
      invariant 1 <= i
      invariant CombineFrom(g.nodes, S, i, combined) == Combine(g.nodes, S)
      decreases |S| - i
    {
      var pairs := PairLayer(g, S[i], S[i + 1]);
      if pairs.Fail? {
        return Fail(pairs.error);
      }
      combined := combined + [pairs.value];
      i := i + 2;
    }
    res := Ok(combined + [Singletons(S[|S| - 1])]);
  }

  /**
    * `import_ipq(ipq, strict)`: reads the query, builds the network in the arena and returns
    * it with the inputs the query declares. On failure the nodes already created stay.
    */
  method ImportIpq(g: Graph, lines: seq<string>, counter: nat, strict: bool) returns (res: Result<(Network, seq<int>), Fault>)
    modifies g
    ensures var x := Import(old(g.nodes), lines, counter, strict);
      && g.nodes == x.0
      && (res.Ok? <==> x.1.Ok?)
      && (res.Ok? ==> fresh(res.value.0) && res.value.0.layers == x.1.value.0 && res.value.1 == x.1.value.1)
      && (res.Fail? ==> res.error == x.1.error)
    ensures res.Ok? ==> res.value.0.Sane(g)
  {
    var name := IpqNaming(counter);
    var parsed := ReadQuery(lines, Nnet.Python);
    if parsed.Fail? {
      return Fail(parsed.error);
    }
    var q := parsed.value;
    BuildSane(g.nodes, q, strict, name);
    var originalInputs := q.inputVars;
    var fixedVars := FixedFrom(q, 0);
    q := q.(inputVars := q.inputVars + fixedVars);
    ghost var A0 := g.nodes;
    var layer, t := BuildInputs(g, q.inputVars, name);
    InputsClosed(A0, q.inputVars, name);
    GrowClosed(q, g.nodes, t, [layer], strict, name, |A0|);
    var grown := GrowLayers(g, q, t, [layer], strict, name);
    if grown.Fail? {
      return Fail(grown.error);
    }
    var S := grown.value.1;
    t := grown.value.0;
    var checked := Checked(q, t, S, strict);
    if checked.Failed? {
      return Fail(checked.error);
    }
    var bounded := CopyLimits(g, q, t);
    if bounded.Failed? {
      return Fail(bounded.error);
    }
    var combined := CombineLayers(g, S);
    if combined.Fail? {
      return Fail(combined.error);
    }
    var net := new Network(combined.value);
    return Ok((net, originalInputs));
  }
}
