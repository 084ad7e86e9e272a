/** The list of message sizes the benchmark sweeps: a geometric sequence
    `begin, begin*factor, ...` when `factor > 1`, otherwise the arithmetic
    sequence `range(begin, end + 1, step)`. */
module SizeSweep {
  import opened Results
  import opened SizeParse

  datatype SweepError =
    | BadSize(error: ParseError)  // `parse_size` raised on one of the arguments
    | ZeroStep                    // `range()` with a step of 0 raises ValueError

  function Pow(b: int, n: nat): int {
    if n == 0 then 1 else b * Pow(b, n - 1)
  }

  lemma MulGrows(x: int, factor: int)
    requires x > 0 && factor > 1
    ensures x * factor > x
  {
    assert x * factor == x * (factor - 1) + x;
  }

  /** Whether the `while start <= end` loop stops: it does exactly when the
      start is positive or already past the end. */
  predicate GeometricStops(begin: int, end: int) {
    begin > 0 || begin > end
  }

  /** The sequence the geometric loop builds, defined by the loop's own
      recursion: `start` while `start <= end`, then the same from
      `start * factor`. */
  function Geometric(start: int, end: int, factor: int): seq<int>
    requires factor > 1 && GeometricStops(start, end)
    decreases if start <= end then end - start + 1 else 0
  {
    if start > end then []
    else
      MulGrows(start, factor);
      [start] + Geometric(start * factor, end, factor)
  }

  /** The geometric sweep, a loop that appends `start` and multiplies it by
      `factor` until it passes `end`. */
  method GeometricSweep(begin: int, end: int, factor: int) returns (sizes: seq<int>)
    requires factor > 1 && GeometricStops(begin, end)
    ensures sizes == Geometric(begin, end, factor)
  {
    sizes := [];
    var start := begin;
    while start <= end
      invariant GeometricStops(start, end)
      invariant sizes + Geometric(start, end, factor) == Geometric(begin, end, factor)
      decreases end - start
    {
      MulGrows(start, factor);
      sizes := sizes + [start];
      start := start * factor;
    }
  }

  lemma PowStep(begin: int, factor: int, k: nat)
    requires k > 0
    ensures begin * Pow(factor, k) == (begin * factor) * Pow(factor, k - 1)
  {
    var p := Pow(factor, k - 1);
    assert Pow(factor, k) == factor * p;
    assert begin * (factor * p) == (begin * factor) * p;
  }

  /** The geometric sweep in closed form: its k-th element is
      `begin * factor^k`, every element is at most `end`, and the next
      power would exceed `end`. */
  lemma {:induction false} GeometricClosedForm(begin: int, end: int, factor: int)
    requires factor > 1 && GeometricStops(begin, end)
    ensures var r := Geometric(begin, end, factor);
      (forall k :: 0 <= k < |r| ==> r[k] == begin * Pow(factor, k) && r[k] <= end)
      && begin * Pow(factor, |r|) > end
    decreases if begin <= end then end - begin + 1 else 0
  {
    var r := Geometric(begin, end, factor);
    if begin <= end {
      MulGrows(begin, factor);
      var next := begin * factor;
      var rest := Geometric(next, end, factor);
      GeometricClosedForm(next, end, factor);
      assert r == [begin] + rest;
      forall k | 0 < k < |r| ensures r[k] == begin * Pow(factor, k) {
        PowStep(begin, factor, k);
        assert r[k] == rest[k - 1];
      }
      PowStep(begin, factor, |r|);
    }
  }

  /** The first element is `begin` when `begin <= end`; the sweep is empty
      otherwise. Each element is the previous one times `factor`, the
      sequence is strictly increasing, and the last element times `factor`
      is past `end`. */
  lemma {:induction false} GeometricShape(begin: int, end: int, factor: int)
    requires factor > 1 && GeometricStops(begin, end)
    ensures var r := Geometric(begin, end, factor);
      (begin <= end ==> |r| > 0 && r[0] == begin)
      && (begin > end ==> r == [])
      && (forall k :: 0 < k < |r| ==> r[k] == r[k - 1] * factor)
      && (forall i, j :: 0 <= i < j < |r| ==> 0 < r[i] < r[j])
      && (|r| > 0 ==> r[|r| - 1] * factor > end)
    decreases if begin <= end then end - begin + 1 else 0
  {
    if begin <= end {
      MulGrows(begin, factor);
      var rest := Geometric(begin * factor, end, factor);
      GeometricShape(begin * factor, end, factor);
      assert Geometric(begin, end, factor) == [begin] + rest;
      if |rest| > 0 {
        assert rest[0] == begin * factor;
      }
    }
  }

  /** The loop as written never stops when `begin <= 0` and `begin <= end`:
      every value `start` takes, `begin * factor^k`, still satisfies
      `start <= end` (with `-b 0` the loop spins on 0 forever). */
  lemma {:induction false} GeometricDivergesFromNonPositive(begin: int, end: int, factor: int, k: nat)
    requires factor > 1 && begin <= 0 && begin <= end
    ensures begin * Pow(factor, k) <= begin <= end
  {
    if k > 0 {
      GeometricDivergesFromNonPositive(begin, end, factor, k - 1);
      var p := Pow(factor, k - 1);
      assert p >= 1 by { PowPositive(factor, k - 1); }
      assert begin * Pow(factor, k) == begin * p * factor;
      assert begin * p * factor <= begin * p by {
        assert begin * p <= 0;
        assert begin * p * factor == begin * p * (factor - 1) + begin * p;
      }
    }
  }

  lemma {:induction false} PowPositive(b: int, n: nat)
    requires b >= 1
    ensures Pow(b, n) >= 1
  {
    if n > 0 {
      PowPositive(b, n - 1);
      assert Pow(b, n) == b * Pow(b, n - 1);
    }
  }

  /** `list(range(start, stop, step))` for a positive step. */
  function RangeUp(start: int, stop: int, step: nat): seq<int>
    requires step > 0
    decreases if start < stop then stop - start else 0
  {
    if start >= stop then [] else [start] + RangeUp(start + step, stop, step)
  }

  /** `list(range(start, stop, step))`; a step of 0 raises. The step comes
      from `parse_size`, so it is never negative. */
  function Range(start: int, stop: int, step: nat): Result<seq<int>, SweepError> {
    if step == 0 then Failure(ZeroStep) else Success(RangeUp(start, stop, step))
  }

  /** Every element of the range is `start + k*step` at position k, below
      `stop`, so the range is strictly increasing. */
  lemma {:induction false} RangeUpAt(start: int, stop: int, step: nat)
    requires step > 0
    ensures forall k :: 0 <= k < |RangeUp(start, stop, step)| ==>
              RangeUp(start, stop, step)[k] == start + k * step && RangeUp(start, stop, step)[k] < stop
    decreases if start < stop then stop - start else 0
  {
    if start < stop {
      var r := RangeUp(start, stop, step);
      var rest := RangeUp(start + step, stop, step);
      RangeUpAt(start + step, stop, step);
      assert r == [start] + rest;
      forall k | 0 < k < |r| ensures r[k] == start + k * step && r[k] < stop {
        assert 0 <= k - 1 < |rest|;
        assert rest[k - 1] == (start + step) + (k - 1) * step && rest[k - 1] < stop;
        assert r[k] == rest[k - 1];
        assert (k - 1) * step == k * step - step;
      }
    }
  }

  lemma StepBack(start: int, step: nat, k: nat)
    requires k > 0
    ensures start + step + (k - 1) * step == start + k * step
    ensures k * step >= step
  {
  }

  /** Conversely, every `start + k*step` below `stop` is in the range. */
  lemma {:induction false} RangeUpContains(start: int, stop: int, step: nat, k: nat)
    requires step > 0 && start + k * step < stop
    ensures start + k * step in RangeUp(start, stop, step)
    decreases k
  {
    if k > 0 {
      StepBack(start, step, k);
      RangeUpContains(start + step, stop, step, k - 1);
      assert RangeUp(start, stop, step) == [start] + RangeUp(start + step, stop, step);
    }
  }

  /** The arithmetic sweep `range(begin, end + 1, step)` holds exactly the
      values `begin + k*step` that are at most `end`, in increasing order. */
  lemma ArithmeticSweep(begin: int, end: int, step: nat)
    requires step > 0
    ensures var r := RangeUp(begin, end + 1, step);
      (forall k :: 0 <= k < |r| ==> r[k] == begin + k * step && r[k] <= end)
      && (forall k: nat :: begin + k * step <= end ==> begin + k * step in r)
  {
    RangeUpAt(begin, end + 1, step);
    forall k: nat | begin + k * step <= end
      ensures begin + k * step in RangeUp(begin, end + 1, step)
    {
      RangeUpContains(begin, end + 1, step, k);
    }
  }

  /** What the argument strings must satisfy for the `__main__` sweep to
      finish: with `factor > 1` and both sizes readable, the geometric loop
      must stop. */
  predicate SweepStops(beginArg: string, endArg: string, factor: int) {
    factor > 1 && ParseSize(beginArg).Success? && ParseSize(endArg).Success?
    ==> GeometricStops(ParseSize(beginArg).value, ParseSize(endArg).value)
  }

  /** The sizes list built in `__main__` from the `--begin`, `--end` and
      `--step` strings and `--factor`. The arguments are parsed in that
      order, so the first one that does not parse decides the error;
      `--step` is not parsed at all on the geometric path. */
  function Sizes(beginArg: string, endArg: string, stepArg: string, factor: int): Result<seq<int>, SweepError>
    requires SweepStops(beginArg, endArg, factor)
  {
    var b := ParseSize(beginArg);
    if b.Failure? then Failure(BadSize(b.error))
    else
      var e := ParseSize(endArg);
      if e.Failure? then Failure(BadSize(e.error))
      else if factor > 1 then Success(Geometric(b.value, e.value, factor))
      else
        var s := ParseSize(stepArg);
        if s.Failure? then Failure(BadSize(s.error))
        else Range(b.value, e.value + 1, s.value)
  }

  /** The size-sweep block of `__main__`. */
  method BuildSizes(beginArg: string, endArg: string, stepArg: string, factor: int)
    returns (r: Result<seq<int>, SweepError>)
    requires SweepStops(beginArg, endArg, factor)
    ensures r == Sizes(beginArg, endArg, stepArg, factor)
  {
    if factor > 1 {
      var b := ParseSize(beginArg);
      if b.Failure? { return Failure(BadSize(b.error)); }
      var e := ParseSize(endArg);
      if e.Failure? { return Failure(BadSize(e.error)); }
      var sizes := GeometricSweep(b.value, e.value, factor);
      r := Success(sizes);
    } else {
      var b := ParseSize(beginArg);
      if b.Failure? { return Failure(BadSize(b.error)); }
      var e := ParseSize(endArg);
      if e.Failure? { return Failure(BadSize(e.error)); }
      var s := ParseSize(stepArg);
      if s.Failure? { return Failure(BadSize(s.error)); }
      r := Range(b.value, e.value + 1, s.value);
    }
  }

  /** On the geometric path the step argument is never read, so even an
      unparsable `--step` does not matter; on the arithmetic path a zero
      step is the only error besides unparsable sizes. */
  lemma SizesErrors(beginArg: string, endArg: string, stepArg: string, stepArg': string, factor: int)
    requires SweepStops(beginArg, endArg, factor)
    ensures factor > 1 ==> Sizes(beginArg, endArg, stepArg, factor) == Sizes(beginArg, endArg, stepArg', factor)
    ensures Sizes(beginArg, endArg, stepArg, factor) == Failure(ZeroStep)
            <==> factor <= 1 && ParseSize(beginArg).Success? && ParseSize(endArg).Success?
                 && ParseSize(stepArg) == Success(0)
  {
  }
}
