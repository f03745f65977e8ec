/** second/main.py: the projectile script. It reads integer samples (x, y),
    fits y = c0 + c1*x + c2*x^2 by least squares with an extra sample at the
    origin, and reports the first root of the fitted parabola that does not
    round to 0 (the distance the stone flies).

    The two NumPy numerical routines are oracles passed in as functions:
    `np.linalg.lstsq` (LeastSquares) and the roots of `np.poly1d(p)`
    (RootFinder). Everything around them is modelled exactly. */
module Projectile {
  import opened Wrappers
  import opened PyText
  import opened Rounding
  import Grids

  // ----- read_txt -----

  /** `list(map(int, tokens))`; None stands for the ValueError of the first
      token that is not an integer. */
  function ParseTokens(tokens: seq<string>): (r: Option<seq<int>>)
    ensures r.None? <==> exists k :: 0 <= k < |tokens| && ParseInt(tokens[k]).None?
    ensures r.Some? ==> |r.value| == |tokens|
    ensures r.Some? ==> forall k :: 0 <= k < |tokens| ==> ParseInt(tokens[k]) == Some(r.value[k])
  {
    if tokens == [] then Some([])
    else
      match ParseInt(tokens[0])
      case None => None
      case Some(v) =>
        match ParseTokens(tokens[1..])
        case None => None
        case Some(vs) => Some([v] + vs)
  }

  /** One line of the file as read_txt turns it into a row. */
  function ParseLine(line: string): (r: Option<seq<int>>)
    ensures r == ParseTokens(Split(line))
  {
    SplitStrip(line);
    ParseTokens(Split(Strip(line)))
  }

  /** Rows of one common length: what `np.array` accepts as a 2-D array. */
  predicate Rectangular(rows: seq<seq<int>>) {
    forall i :: 0 <= i < |rows| ==> |rows[i]| == |rows[0]|
  }

  /** Why read_txt raises: `int()` rejected a token of line `line`, or
      `np.array` was given rows of different lengths. */
  datatype ReadError = ValueError(line: nat) | InhomogeneousShape

  /** The list comprehension of read_txt, given each line's parse: the
      rows in order, or the index of the first line whose parse failed. */
  function Collect(parsed: seq<Option<seq<int>>>): (r: Result<seq<seq<int>>, nat>)
    ensures r.Ok? ==> |r.value| == |parsed|
    ensures r.Ok? ==> forall i :: 0 <= i < |parsed| ==> parsed[i] == Some(r.value[i])
    ensures r.Err? ==> r.error < |parsed| && parsed[r.error].None?
    ensures r.Err? ==> forall i :: 0 <= i < r.error ==> parsed[i].Some?
  {
    if parsed == [] then Ok([])
    else if parsed[0].None? then Err(0)
    else
      var rest := Collect(parsed[1..]);
      assert forall i :: 1 <= i < |parsed| ==> parsed[i] == parsed[1..][i - 1];
      if rest.Err? then Err(rest.error + 1)
      else Ok([parsed[0].value] + rest.value)
  }

  /** `read_txt` on the lines of the file, already read: one row per line,
      each the integers of that line's tokens. */
  function ReadTxt(lines: seq<string>): (r: Result<seq<seq<int>>, ReadError>)
    ensures r.Ok? ==> |r.value| == |lines| && Rectangular(r.value)
    ensures r.Ok? ==> forall i :: 0 <= i < |lines| ==> ParseLine(lines[i]) == Some(r.value[i])
  {
    var parsed := ParsedLines(lines);
    match Collect(parsed)
    case Err(k) => Err(ValueError(k))
    case Ok(rows) => if Rectangular(rows) then Ok(rows) else Err(InhomogeneousShape)
  }

  function ParsedLines(lines: seq<string>): (parsed: seq<Option<seq<int>>>)
    ensures |parsed| == |lines|
    ensures forall i :: 0 <= i < |lines| ==> parsed[i] == ParseLine(lines[i])
  {
    seq(|lines|, i requires 0 <= i < |lines| => ParseLine(lines[i]))
  }

  /** read_txt raises ValueError for line k exactly when k is the first line
      holding a token that `int()` rejects. */
  lemma ReadTxtValueError(lines: seq<string>, k: nat)
    ensures ReadTxt(lines) == Err(ValueError(k)) <==>
      k < |lines| && ParseLine(lines[k]).None? && forall i :: 0 <= i < k ==> ParseLine(lines[i]).Some?
  {
    var parsed := ParsedLines(lines);
    var r := Collect(parsed);
    if k < |lines| && parsed[k].None? && forall i :: 0 <= i < k ==> parsed[i].Some? {
      // Ok would make every parse Some, and the first failing line is k:
      // an earlier one would fail inside k's all-Some prefix, a later one
      // would leave k inside its own.
      assert r.Err?;
      assert !(r.error < k) && !(r.error > k);
    }
  }

  /** When every line parses, read_txt fails exactly when two rows differ in
      length, which np.array refuses. */
  lemma ReadTxtInhomogeneous(lines: seq<string>)
    requires forall i :: 0 <= i < |lines| ==> ParseLine(lines[i]).Some?
    ensures ReadTxt(lines) == Err(InhomogeneousShape) <==>
      exists i :: 0 <= i < |lines| && |ParseLine(lines[i]).value| != |ParseLine(lines[0]).value|
  {
    var parsed := ParsedLines(lines);
    var r := Collect(parsed);
  }

  /** The integers of a row in decimal, as `str` writes them. */
  function RowWords(row: seq<int>): (words: seq<string>)
    ensures |words| == |row|
    ensures forall k :: 0 <= k < |row| ==> words[k] == IntToString(row[k])
  {
    seq(|row|, k requires 0 <= k < |row| => IntToString(row[k]))
  }

  /** A row written the way the input file holds it: integers separated by
      single spaces, ended by a newline. */
  function FormatRow(row: seq<int>): string
  {
    Join(RowWords(row)) + "\n"
  }

  function FormatRows(rows: seq<seq<int>>): (lines: seq<string>)
    ensures |lines| == |rows|
    ensures forall i :: 0 <= i < |rows| ==> lines[i] == FormatRow(rows[i])
  {
    seq(|rows|, i requires 0 <= i < |rows| => FormatRow(rows[i]))
  }

  /** `split()` of a written row gives back the decimal words. */
  lemma SplitFormatRow(row: seq<int>)
    ensures Split(FormatRow(row)) == RowWords(row)
  {
    var words := RowWords(row);
    assert AllSpace("\n");
    SplitBeforeSpaces(Join(words), "\n");
    SplitJoin(words);
  }

  /** `int()` reads back every decimal word of a row. */
  lemma ParseRowWords(row: seq<int>)
    ensures ParseTokens(RowWords(row)) == Some(row)
  {
    var words := RowWords(row);
    forall k | 0 <= k < |row|
      ensures ParseInt(words[k]) == Some(row[k])
    {
      ParseIntToString(row[k]);
    }
    var r := ParseTokens(words);
    assert r.value == row;
  }

  lemma ParseFormatRow(row: seq<int>)
    ensures ParseLine(FormatRow(row)) == Some(row)
  {
    SplitFormatRow(row);
    ParseRowWords(row);
  }

  /** read_txt reads back exactly the rows a file was written from. */
  lemma ReadTxtRoundTrip(rows: seq<seq<int>>)
    requires Rectangular(rows)
    ensures ReadTxt(FormatRows(rows)) == Ok(rows)
  {
    var lines := FormatRows(rows);
    forall i | 0 <= i < |rows|
      ensures ParseLine(lines[i]) == Some(rows[i])
    {
      ParseFormatRow(rows[i]);
    }
    var parsed := ParsedLines(lines);
    var r := Collect(parsed);
    assert r.value == rows;
  }

  // ----- find_coef -----

  function Power(x: int, p: nat): int
  {
    if p == 0 then 1 else x * Power(x, p - 1)
  }

  /** `np.power(x, ps)` for one x. */
  function Powers(x: int, ps: seq<nat>): seq<int>
  {
    seq(|ps|, k requires 0 <= k < |ps| => Power(x, ps[k]))
  }

  lemma SquareColumns(x: int)
    ensures Powers(x, [0, 1, 2]) == [1, x, Power(x, 2)]
  {
    assert Power(x, 1) == x;
  }

  /** The least-squares system A c ≈ B that find_coef hands to lstsq. */
  datatype LinearSystem = LinearSystem(design: seq<seq<int>>, target: seq<int>)

  /** Lines 29-33 of find_coef: the x column with 0 inserted in front, raised
      to the powers 0, 1, 2; the y column with 0 inserted in front. */
  function AnchoredSystem(samples: seq<seq<int>>): (sys: LinearSystem)
    requires forall i :: 0 <= i < |samples| ==> |samples[i]| >= 2
    ensures |sys.design| == |samples| + 1 == |sys.target|
    ensures sys.design[0] == [1, 0, 0] && sys.target[0] == 0
    ensures ThreeWide(sys)
    ensures forall i :: 0 <= i < |samples| ==>
      var x := samples[i][0];
      sys.design[i + 1] == [1, x, Power(x, 2)] && sys.target[i + 1] == samples[i][1]
  {
    var xs := [0] + Grids.Column(samples, 0);
    var design := seq(|xs|, i requires 0 <= i < |xs| => Powers(xs[i], [0, 1, 2]));
    var ys := [0] + Grids.Column(samples, 1);
    forall i | 0 <= i < |xs|
      ensures design[i] == [1, xs[i], Power(xs[i], 2)]
    {
      SquareColumns(xs[i]);
    }
    LinearSystem(design, ys)
  }

  /** Coefficients of y = c0 + c1*x + c2*x^2, in the order lstsq returns them. */
  datatype Coefficients = Coefficients(c0: real, c1: real, c2: real)

  /** `np.linalg.lstsq(A, B, rcond=None)[0]`. */
  type LeastSquares = (seq<seq<int>>, seq<int>) -> Coefficients

  /** Why find_coef raises: the NumPy array is 1-D (the file was empty), or has no
      column `column` (its rows are `width` long). */
  datatype FitError = TooManyIndices | ColumnOutOfBounds(column: nat, width: nat)

  /** `find_coef(samples)`. */
  function FindCoef(samples: seq<seq<int>>, lstsq: LeastSquares): (r: Result<Coefficients, FitError>)
    requires Rectangular(samples)
    ensures samples == [] ==> r == Err(TooManyIndices)
    ensures samples != [] && |samples[0]| < 2 ==> r == Err(ColumnOutOfBounds(|samples[0]|, |samples[0]|))
    ensures r.Ok? <==> samples != [] && |samples[0]| >= 2
    ensures r.Ok? ==>
      var sys := AnchoredSystem(samples);
      r.value == lstsq(sys.design, sys.target)
  {
    if samples == [] then Err(TooManyIndices)
    else if |samples[0]| < 2 then Err(ColumnOutOfBounds(|samples[0]|, |samples[0]|))
    else
      var sys := AnchoredSystem(samples);
      Ok(lstsq(sys.design, sys.target))
  }

  /** The parabola c0 + c1*x + c2*x^2 at x. */
  function Eval(c: Coefficients, x: real): real
  {
    c.c0 + c.c1 * x + c.c2 * x * x
  }

  /** A design row [a, b, d] applied to the coefficients. */
  function Dot(row: seq<int>, c: Coefficients): real
    requires |row| == 3
  {
    row[0] as real * c.c0 + row[1] as real * c.c1 + row[2] as real * c.c2
  }

  /** One target per design row, and three entries in every design row, one
      per coefficient: the shape lstsq needs for three coefficients. */
  predicate ThreeWide(sys: LinearSystem) {
    && |sys.design| == |sys.target|
    && forall k :: 0 <= k < |sys.design| ==> |sys.design[k]| == 3
  }

  /** The residuals A c - B of a linear system. */
  function Residuals(sys: LinearSystem, c: Coefficients): (res: seq<real>)
    requires ThreeWide(sys)
    ensures |res| == |sys.design|
  {
    seq(|sys.design|, k requires 0 <= k < |sys.design| => Dot(sys.design[k], c) - sys.target[k] as real)
  }

  /** For the anchored system the first residual is the parabola's height at
      the origin, the others its misfit at each sample. */
  lemma ResidualsAreMisfits(samples: seq<seq<int>>, c: Coefficients)
    requires forall i :: 0 <= i < |samples| ==> |samples[i]| >= 2
    ensures var res := Residuals(AnchoredSystem(samples), c);
      |res| == |samples| + 1 && res[0] == c.c0 &&
      forall i :: 0 <= i < |samples| ==> res[i + 1] == Eval(c, samples[i][0] as real) - samples[i][1] as real
  {
    AnchoredRowsResidual(samples, AnchoredSystem(samples), c);
  }

  /** A system laid out as the anchored one is, whatever its origin. */
  lemma AnchoredRowsResidual(samples: seq<seq<int>>, sys: LinearSystem, c: Coefficients)
    requires forall i :: 0 <= i < |samples| ==> |samples[i]| >= 2
    requires |sys.design| == |samples| + 1 == |sys.target| && ThreeWide(sys)
    requires sys.design[0] == [1, 0, 0] && sys.target[0] == 0
    requires forall i :: 0 <= i < |samples| ==>
      sys.design[i + 1] == [1, samples[i][0], Power(samples[i][0], 2)] && sys.target[i + 1] == samples[i][1]
    ensures var res := Residuals(sys, c);
      res[0] == c.c0 &&
      forall i :: 0 <= i < |samples| ==> res[i + 1] == Eval(c, samples[i][0] as real) - samples[i][1] as real
  {
    var res := Residuals(sys, c);
    forall i | 0 <= i < |samples|
      ensures res[i + 1] == Eval(c, samples[i][0] as real) - samples[i][1] as real
    {
      DesignRow(samples[i][0], sys.design[i + 1], c);
      assert res[i + 1] == Dot(sys.design[i + 1], c) - sys.target[i + 1] as real;
    }
  }

  lemma DesignRow(x: int, row: seq<int>, c: Coefficients)
    requires row == [1, x, Power(x, 2)]
    ensures Dot(row, c) == Eval(c, x as real)
  {
    assert Power(x, 1) == x;
    assert Power(x, 2) == x * x;
    RealOfProduct(x, x);
  }

  /** Converting an integer product to a real multiplies the conversions. */
  lemma {:induction false} RealOfProduct(a: int, b: int)
    ensures (a * b) as real == a as real * b as real
    decreases if b < 0 then -b else b
  {
    if b > 0 {
      RealOfProduct(a, b - 1);
      assert a * b == a * (b - 1) + a;
    } else if b < 0 {
      RealOfProduct(a, b + 1);
      assert a * b == a * (b + 1) - a;
    }
  }

  /** The anchored system is solved exactly by c (every residual is zero,
      so the quantity lstsq minimises is zero) exactly when the parabola
      passes through the origin and through every sample. */
  lemma ExactFit(samples: seq<seq<int>>, c: Coefficients)
    requires forall i :: 0 <= i < |samples| ==> |samples[i]| >= 2
    ensures (forall k :: 0 <= k < |Residuals(AnchoredSystem(samples), c)| ==> Residuals(AnchoredSystem(samples), c)[k] == 0.0) <==>
      c.c0 == 0.0 && forall i :: 0 <= i < |samples| ==> Eval(c, samples[i][0] as real) == samples[i][1] as real
  {
    var res := Residuals(AnchoredSystem(samples), c);
    ResidualsAreMisfits(samples, c);
    if c.c0 == 0.0 && forall i :: 0 <= i < |samples| ==> Eval(c, samples[i][0] as real) == samples[i][1] as real {
      forall k | 0 <= k < |res|
        ensures res[k] == 0.0
      {
        if k > 0 {
          assert res[(k - 1) + 1] == 0.0;
        }
      }
    }
  }

  // ----- find_roots -----

  /** `[coef[2], coef[1], coef[0]]`: the coefficients highest degree first,
      as np.poly1d takes them, which describes the same parabola. */
  function HighestFirst(c: Coefficients): (p: seq<real>)
    ensures |p| == 3
    ensures forall x :: Horner(p, x) == Eval(c, x)
  {
    assert forall x :: Horner([c.c2, c.c1, c.c0], x) == Eval(c, x) by {
      forall x
        ensures Horner([c.c2, c.c1, c.c0], x) == Eval(c, x)
      {
        ReversedParabola(c, x);
      }
    }
    [c.c2, c.c1, c.c0]
  }

  /** The value at x of a polynomial given highest degree first, as
      np.poly1d reads its coefficient list. */
  function Horner(p: seq<real>, x: real): real
  {
    if p == [] then 0.0 else Horner(p[..|p| - 1], x) * x + p[|p| - 1]
  }

  lemma ReversedParabola(c: Coefficients, x: real)
    ensures Horner([c.c2, c.c1, c.c0], x) == Eval(c, x)
  {
    var p := [c.c2, c.c1, c.c0];
    assert p[..2] == [c.c2, c.c1];
    assert [c.c2, c.c1][..1] == [c.c2];
    assert [c.c2][..0] == [];
    assert Horner([c.c2], x) == c.c2;
    assert Horner([c.c2, c.c1], x) == c.c2 * x + c.c1;
    assert Horner(p, x) == (c.c2 * x + c.c1) * x + c.c0;
  }

  /** `np.poly1d(p).r`, reduced to the real roots. */
  type RootFinder = seq<real> -> seq<real>

  /** roots[k] is the first root, in solver order, that does not round to 0. */
  predicate IsFirstNonZero(roots: seq<real>, k: int) {
    && 0 <= k < |roots|
    && RoundHalfEven(roots[k]) != 0
    && forall j :: 0 <= j < k ==> RoundHalfEven(roots[j]) == 0
  }

  /** The loop of find_roots: the rounded value of the first root that does
      not round to 0; None when the loop falls through. */
  function SelectRoot(roots: seq<real>): (r: Option<int>)
    ensures r.Some? ==> r.value != 0
    ensures r.Some? ==> exists k :: IsFirstNonZero(roots, k) && r.value == RoundHalfEven(roots[k])
    ensures r.None? <==> forall k :: 0 <= k < |roots| ==> RoundHalfEven(roots[k]) == 0
  {
    if roots == [] then None
    else
      var n := RoundHalfEven(roots[0]);
      if n != 0 then
        assert IsFirstNonZero(roots, 0);
        Some(n)
      else
        var r := SelectRoot(roots[1..]);
        if r.Some? then
          var k :| IsFirstNonZero(roots[1..], k) && r.value == RoundHalfEven(roots[1..][k]);
          assert IsFirstNonZero(roots, k + 1);
          r
        else
          assert forall k :: 1 <= k < |roots| ==> roots[k] == roots[1..][k - 1];
          r
  }

  /** `find_roots(coef)`. */
  function FindRoots(coef: Coefficients, rootsOf: RootFinder): (r: Option<int>)
    ensures var roots := rootsOf(HighestFirst(coef));
      && (r.Some? ==> r.value != 0 && exists k :: IsFirstNonZero(roots, k) && r.value == RoundHalfEven(roots[k]))
      && (r.None? <==> forall k :: 0 <= k < |roots| ==> RoundHalfEven(roots[k]) == 0)
  {
    SelectRoot(rootsOf(HighestFirst(coef)))
  }

  /** find_roots falls through exactly when every root lies in [-1/2, 1/2]. */
  lemma SelectRootNoneIff(roots: seq<real>)
    ensures SelectRoot(roots).None? <==> forall k :: 0 <= k < |roots| ==> -0.5 <= roots[k] <= 0.5
  {
    forall k | 0 <= k < |roots| {
      RoundsToZeroIff(roots[k]);
    }
  }

  /** The parabola a (x - r)(x - z) written out as lstsq's coefficients. */
  function Factored(a: real, r: real, z: real): Coefficients
  {
    Coefficients(a * r * z, -a * (r + z), a)
  }

  lemma RootOfFactored(a: real, r: real, z: real, t: real)
    requires a != 0.0
    requires Horner(HighestFirst(Factored(a, r, z)), t) == 0.0
    ensures t == r || t == z
  {
    calc {
      Eval(Factored(a, r, z), t);
      a * r * z - a * (r + z) * t + a * t * t;
      a * ((t - r) * (t - z));
    }
    ZeroProduct(a, (t - r) * (t - z));
    ZeroProduct(t - r, t - z);
  }

  /** A product of reals is zero only when a factor is. */
  lemma ZeroProduct(p: real, q: real)
    requires p * q == 0.0
    ensures p == 0.0 || q == 0.0
  {
    if p != 0.0 {
      calc {
        q;
        (p * q) / p;
        0.0 / p;
        0.0;
      }
    }
  }

  /** When the fitted parabola has roots r and z, z rounds to 0 and r does
      not, and the root finder returns roots of that parabola including r,
      find_roots returns round(r), whatever order the roots come in. */
  lemma FindRootsOfFactored(a: real, r: real, z: real, rootsOf: RootFinder)
    requires a != 0.0
    requires RoundHalfEven(r) != 0 && RoundHalfEven(z) == 0
    requires var p := HighestFirst(Factored(a, r, z));
      forall k :: 0 <= k < |rootsOf(p)| ==> Horner(p, rootsOf(p)[k]) == 0.0
    requires r in rootsOf(HighestFirst(Factored(a, r, z)))
    ensures FindRoots(Factored(a, r, z), rootsOf) == Some(RoundHalfEven(r))
  {
    var roots := rootsOf(HighestFirst(Factored(a, r, z)));
    forall k | 0 <= k < |roots|
      ensures RoundHalfEven(roots[k]) == 0 || roots[k] == r
    {
      RootOfFactored(a, r, z, roots[k]);
    }
    var res := SelectRoot(roots);
    var i :| 0 <= i < |roots| && roots[i] == r;
    assert res.Some?;
    var k :| IsFirstNonZero(roots, k) && res.value == RoundHalfEven(roots[k]);
  }

  // ----- the script -----

  datatype Failure = ReadFailed(read: ReadError) | FitFailed(fit: FitError)

  /** The `__main__` block: read the samples, fit, pick the root. Ok(None) is
      the fall-through of find_roots, printed as `None`. */
  function Distance(lines: seq<string>, lstsq: LeastSquares, rootsOf: RootFinder)
    : (r: Result<Option<int>, Failure>)
    ensures r.Ok? <==> ReadTxt(lines).Ok? && |lines| > 0 && |ReadTxt(lines).value[0]| >= 2
    ensures r.Ok? && r.value.Some? ==> r.value.value != 0
    ensures ReadTxt(lines).Err? ==> r == Err(ReadFailed(ReadTxt(lines).error))
    ensures ReadTxt(lines).Ok? && lines == [] ==> r == Err(FitFailed(TooManyIndices))
    ensures ReadTxt(lines).Ok? && lines != [] && |ReadTxt(lines).value[0]| < 2 ==>
      var width := |ReadTxt(lines).value[0]|;
      r == Err(FitFailed(ColumnOutOfBounds(width, width)))
    ensures r.Ok? ==>
      var sys := AnchoredSystem(ReadTxt(lines).value);
      r.value == FindRoots(lstsq(sys.design, sys.target), rootsOf)
  {
    match ReadTxt(lines)
    case Err(e) => Err(ReadFailed(e))
    case Ok(samples) =>
      match FindCoef(samples, lstsq)
      case Err(e) => Err(FitFailed(e))
      case Ok(coef) => Ok(FindRoots(coef, rootsOf))
  }

  /** Samples of y = 2x + x^2, a parabola through the origin. */
  function ExampleSamples(): seq<seq<int>>
  {
    [[1, 3], [2, 8], [3, 15]]
  }

  /** The only parabola through the origin and the three example samples. */
  lemma SolveExample(c: Coefficients)
    requires c.c0 == 0.0
    requires Eval(c, 1.0) == 3.0 && Eval(c, 2.0) == 8.0 && Eval(c, 3.0) == 15.0
    ensures c == Factored(1.0, -2.0, 0.0)
  {
  }

  /** lstsq leaves no residual on the anchored system of these samples. */
  predicate SolvesExactly(samples: seq<seq<int>>, lstsq: LeastSquares)
    requires forall i :: 0 <= i < |samples| ==> |samples[i]| >= 2
  {
    var sys := AnchoredSystem(samples);
    var res := Residuals(sys, lstsq(sys.design, sys.target));
    forall k :: 0 <= k < |res| ==> res[k] == 0.0
  }

  /** A zero residual on the anchored example system determines the fit. */
  lemma ExampleFit(lstsq: LeastSquares)
    requires SolvesExactly(ExampleSamples(), lstsq)
    ensures FindCoef(ExampleSamples(), lstsq) == Ok(Factored(1.0, -2.0, 0.0))
  {
    var sys := AnchoredSystem(ExampleSamples());
    var c := lstsq(sys.design, sys.target);
    var res := Residuals(sys, c);
    ResidualsAreMisfits(ExampleSamples(), c);
    assert res[0] == 0.0 && res[1] == 0.0 && res[2] == 0.0 && res[3] == 0.0;
    SolveExample(c);
  }

  /** End to end on a file holding the samples of y = 2x + x^2: a least-squares
      solver that reaches zero residual returns (0, 2, 1); the roots of
      x^2 + 2x are 0 and -2, and the script reports -2. */
  lemma ExampleDistance(lstsq: LeastSquares, rootsOf: RootFinder)
    requires SolvesExactly(ExampleSamples(), lstsq)
    requires forall k :: 0 <= k < |rootsOf([1.0, 2.0, 0.0])| ==>
      Horner([1.0, 2.0, 0.0], rootsOf([1.0, 2.0, 0.0])[k]) == 0.0
    requires -2.0 in rootsOf([1.0, 2.0, 0.0])
    ensures Distance(FormatRows(ExampleSamples()), lstsq, rootsOf) == Ok(Some(-2))
  {
    ExampleFit(lstsq);
    ExampleRoots(rootsOf);
    DistanceOfFile(ExampleSamples(), lstsq, rootsOf, Factored(1.0, -2.0, 0.0));
  }

  /** On a file written from rows of one length, at least two wide, the script
      reports find_roots of the fit of those rows. */
  lemma DistanceOfFile(rows: seq<seq<int>>, lstsq: LeastSquares, rootsOf: RootFinder, c: Coefficients)
    requires Rectangular(rows)
    requires FindCoef(rows, lstsq) == Ok(c)
    ensures Distance(FormatRows(rows), lstsq, rootsOf) == Ok(FindRoots(c, rootsOf))
  {
    ReadTxtRoundTrip(rows);
  }

  /** x^2 + 2x has the roots 0 and -2; find_roots skips 0 and gives -2. */
  lemma ExampleRoots(rootsOf: RootFinder)
    requires forall k :: 0 <= k < |rootsOf([1.0, 2.0, 0.0])| ==>
      Horner([1.0, 2.0, 0.0], rootsOf([1.0, 2.0, 0.0])[k]) == 0.0
    requires -2.0 in rootsOf([1.0, 2.0, 0.0])
    ensures FindRoots(Factored(1.0, -2.0, 0.0), rootsOf) == Some(-2)
  {
    assert HighestFirst(Factored(1.0, -2.0, 0.0)) == [1.0, 2.0, 0.0];
    RoundHalfEvenUnique(-2.0, -2);
    RoundHalfEvenUnique(0.0, 0);
    FindRootsOfFactored(1.0, -2.0, 0.0, rootsOf);
  }
}
