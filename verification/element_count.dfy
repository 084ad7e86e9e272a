/** The size bookkeeping of `benchmark`: the element size of the chosen
    dtype, the sizes in sorted order, one element count per size, and the
    assertion that every size is a whole number of elements. */
module ElementCount {
  import opened Results

  /** The dtypes the `--dtype` option offers. */
  datatype DType = Float | Fp16 | Bf16 | Uint8

  /** `torch.iinfo(dtype).bits` for the integer dtype, `torch.finfo(dtype).bits`
      for the floating ones. */
  function Bits(dtype: DType): nat {
    match dtype
    case Float => 32
    case Fp16 => 16
    case Bf16 => 16
    case Uint8 => 8
  }

  /** `element_size = bits // 8`: bytes per element. */
  function ElementSize(dtype: DType): (r: nat)
    ensures r > 0 && r * 8 == Bits(dtype)
    ensures r == 4 <==> dtype == Float
    ensures r == 2 <==> dtype == Fp16 || dtype == Bf16
    ensures r == 1 <==> dtype == Uint8
  {
    Bits(dtype) / 8
  }

  predicate IsSorted(s: seq<int>) {
    forall i, j :: 0 <= i < j < |s| ==> s[i] <= s[j]
  }

  /** A smallest element in front of a sorted list keeps it sorted. */
  lemma ConsSorted(h: int, t: seq<int>)
    requires IsSorted(t) && forall y :: y in t ==> h <= y
    ensures IsSorted([h] + t)
  {
    var r := [h] + t;
    forall i, j | 0 <= i < j < |r| ensures r[i] <= r[j] {
      assert r[j] == t[j - 1] && t[j - 1] in t;
      if i > 0 { assert r[i] == t[i - 1]; }
    }
  }

  /** Places `x` before the first element not smaller than it. */
  function Insert(x: int, s: seq<int>): (r: seq<int>)
    requires IsSorted(s)
    ensures IsSorted(r) && multiset(r) == multiset(s) + multiset{x}
  {
    if s == [] || x <= s[0] then
      ConsSorted(x, s);
      [x] + s
    else
      assert s == [s[0]] + s[1..];
      var rest := Insert(x, s[1..]);
      assert forall y :: y in rest ==> s[0] <= y by {
        forall y | y in rest ensures s[0] <= y {
          assert y in multiset(rest);
          if y != x {
            assert y in multiset(s[1..]);
            assert y in s[1..];
          }
        }
      }
      ConsSorted(s[0], rest);
      [s[0]] + rest
  }

  /** `sorted(sizes)`. */
  function Sort(s: seq<int>): (r: seq<int>)
    ensures IsSorted(r) && multiset(r) == multiset(s)
  {
    if s == [] then []
    else
      assert s == [s[0]] + s[1..];
      Insert(s[0], Sort(s[1..]))
  }

  lemma SortedHeadIsLeast(a: seq<int>, x: int)
    requires IsSorted(a) && x in multiset(a)
    ensures a[0] <= x
  {
    assert x in a;
    var j :| 0 <= j < |a| && a[j] == x;
    assert j == 0 || a[0] <= a[j];
  }

  lemma SortedTail(a: seq<int>)
    requires IsSorted(a) && a != []
    ensures IsSorted(a[1..])
  {
    forall i, j | 0 <= i < j < |a| - 1 ensures a[1..][i] <= a[1..][j] {
      assert a[1..][i] == a[i + 1] && a[1..][j] == a[j + 1];
    }
  }

  lemma MultisetTail(a: seq<int>)
    requires a != []
    ensures multiset(a[1..]) == multiset(a) - multiset{a[0]}
  {
    assert a == [a[0]] + a[1..];
  }

  /** Two sorted permutations of each other have the same length and the
      same first element, and their tails are again sorted permutations. */
  lemma SortedPermutationStep(a: seq<int>, b: seq<int>)
    requires IsSorted(a) && IsSorted(b) && multiset(a) == multiset(b)
    ensures |a| == |b|
    ensures a != [] ==> a[0] == b[0] && IsSorted(a[1..]) && IsSorted(b[1..])
                        && multiset(a[1..]) == multiset(b[1..])
  {
    assert |multiset(a)| == |multiset(b)|;
    if a != [] {
      assert a[0] in multiset(a) && b[0] in multiset(b);
      SortedHeadIsLeast(a, b[0]);
      SortedHeadIsLeast(b, a[0]);
      SortedTail(a);
      SortedTail(b);
      MultisetTail(a);
      MultisetTail(b);
    }
  }

  /** A sorted permutation is unique, so `Sort` gives the same list as
      Python's `sorted` whatever algorithm either uses. */
  lemma {:induction false} SortedPermutationUnique(a: seq<int>, b: seq<int>)
    requires IsSorted(a) && IsSorted(b) && multiset(a) == multiset(b)
    ensures a == b
  {
    SortedPermutationStep(a, b);
    if a != [] {
      SortedPermutationUnique(a[1..], b[1..]);
      assert a == [a[0]] + a[1..] && b == [b[0]] + b[1..];
    }
  }

  /** `[size // element_size for size in sizes]`. */
  function Counts(sizes: seq<int>, elementSize: nat): (r: seq<int>)
    requires elementSize > 0
    ensures |r| == |sizes|
    ensures forall i :: 0 <= i < |r| ==>
              r[i] * elementSize <= sizes[i] < (r[i] + 1) * elementSize
  {
    seq(|sizes|, i requires 0 <= i < |sizes| => sizes[i] / elementSize)
  }

  lemma ProductBelow(d: int, m: int)
    requires d > 0 && d * m < d
    ensures m < 1
  {
  }

  lemma DivMonotone(x: int, y: int, d: nat)
    requires d > 0 && x <= y
    ensures x / d <= y / d
  {
    var qx, qy := x / d, y / d;
    assert d * qx <= x && y < d * qy + d;
    assert d * (qx - qy) == d * qx - d * qy;
    ProductBelow(d, qx - qy);
  }

  /** Counts of sorted sizes are sorted, so `counts[0]` and `counts[-1]`,
      the two warm-up allocations, are the smallest and largest counts. */
  lemma {:induction false} CountsSorted(sizes: seq<int>, elementSize: nat)
    requires elementSize > 0 && IsSorted(sizes)
    ensures IsSorted(Counts(sizes, elementSize))
  {
    var c := Counts(sizes, elementSize);
    forall i, j | 0 <= i < j < |c| ensures c[i] <= c[j] {
      DivMonotone(sizes[i], sizes[j], elementSize);
    }
  }

  /** One table row of `benchmark`: a size and its element count. */
  datatype Row = Row(size: int, count: int)

  datatype BenchError =
    | NoSizes                  // `counts[0]` on an empty list raises IndexError
    | NegativeCount(count: int) // `torch.empty(counts[0])` refuses a negative count
    | NotDivisible(size: int)  // the `size % element_size == 0` assertion fails

  /** The `for size, count in zip(sizes, counts)` loop's assertion, checked
      row by row in order. */
  function CheckRows(sizes: seq<int>, counts: seq<int>, elementSize: nat): Result<seq<Row>, BenchError>
    requires elementSize > 0 && |sizes| == |counts|
  {
    if sizes == [] then Success([])
    else if sizes[0] % elementSize != 0 then Failure(NotDivisible(sizes[0]))
    else
      match CheckRows(sizes[1..], counts[1..], elementSize)
      case Success(rows) => Success([Row(sizes[0], counts[0])] + rows)
      case Failure(e) => Failure(e)
  }

  /** The rows `benchmark(op, sizes, ..., dtype)` measures, or the error it
      stops with. */
  function Plan(sizes: seq<int>, dtype: DType): Result<seq<Row>, BenchError> {
    var elementSize := ElementSize(dtype);
    var sorted := Sort(sizes);
    var counts := Counts(sorted, elementSize);
    if |counts| == 0 then Failure(NoSizes)
    else if counts[0] < 0 then Failure(NegativeCount(counts[0]))
    else CheckRows(sorted, counts, elementSize)
  }

  /** The loop gets through every row exactly when every size is a whole
      number of elements, and then pairs each size with its count. */
  lemma {:induction false} CheckRowsSpec(sizes: seq<int>, counts: seq<int>, elementSize: nat)
    requires elementSize > 0 && |sizes| == |counts|
    ensures CheckRows(sizes, counts, elementSize).Success?
            <==> forall i :: 0 <= i < |sizes| ==> sizes[i] % elementSize == 0
    ensures CheckRows(sizes, counts, elementSize).Success? ==>
              |CheckRows(sizes, counts, elementSize).value| == |sizes|
              && forall i :: 0 <= i < |sizes| ==>
                   CheckRows(sizes, counts, elementSize).value[i] == Row(sizes[i], counts[i])
  {
    if sizes != [] {
      CheckRowsSpec(sizes[1..], counts[1..], elementSize);
      if sizes[0] % elementSize == 0 {
        forall i | 0 < i < |sizes| ensures sizes[i] == sizes[1..][i - 1] && counts[i] == counts[1..][i - 1] { }
      }
    }
  }

  /** When the loop stops, it stops at the first size that is not a whole
      number of elements. */
  lemma {:induction false} CheckRowsStops(sizes: seq<int>, counts: seq<int>, elementSize: nat)
    returns (k: nat)
    requires elementSize > 0 && |sizes| == |counts|
    requires CheckRows(sizes, counts, elementSize).Failure?
    ensures k < |sizes| && CheckRows(sizes, counts, elementSize).error == NotDivisible(sizes[k])
    ensures sizes[k] % elementSize != 0
    ensures forall i :: 0 <= i < k ==> sizes[i] % elementSize == 0
  {
    if sizes[0] % elementSize != 0 {
      k := 0;
    } else {
      var k' := CheckRowsStops(sizes[1..], counts[1..], elementSize);
      k := k' + 1;
      forall i | 0 < i < k ensures sizes[i] == sizes[1..][i - 1] { }
    }
  }

  lemma SortKeepsElements(sizes: seq<int>)
    ensures |Sort(sizes)| == |sizes|
    ensures forall x :: x in Sort(sizes) <==> x in sizes
  {
    var sorted := Sort(sizes);
    assert |multiset(sorted)| == |multiset(sizes)|;
    forall x ensures x in sorted <==> x in sizes {
      assert x in sorted <==> x in multiset(sorted);
      assert x in sizes <==> x in multiset(sizes);
    }
  }

  /** The sizes of a list of rows. */
  function RowSizes(rows: seq<Row>): seq<int> {
    seq(|rows|, i requires 0 <= i < |rows| => rows[i].size)
  }

  /** Every element of `s` is a whole number of elements of size `e`. */
  predicate AllDivisible(s: seq<int>, e: nat)
    requires e > 0
  {
    forall x :: x in s ==> x % e == 0
  }

  /** No size is negative. */
  predicate NonNegative(s: seq<int>) {
    forall x :: x in s ==> x >= 0
  }

  lemma DivSign(x: int, d: nat)
    requires d > 0
    ensures x / d >= 0 <==> x >= 0
  {
  }

  /** The first warm-up count, that of the smallest size, is negative
      exactly when some size is. */
  lemma FirstCountSign(sizes: seq<int>, e: nat)
    requires e > 0 && sizes != []
    ensures |Counts(Sort(sizes), e)| == |sizes|
    ensures Counts(Sort(sizes), e)[0] >= 0 <==> NonNegative(sizes)
  {
    var sorted := Sort(sizes);
    SortKeepsElements(sizes);
    DivSign(sorted[0], e);
    assert sorted[0] in sizes;
    if sorted[0] >= 0 {
      forall x | x in sizes ensures x >= 0 {
        assert x in sorted;
        var j :| 0 <= j < |sorted| && sorted[j] == x;
        assert j == 0 || sorted[0] <= sorted[j];
      }
    }
  }

  lemma PlanIsCheckRows(sizes: seq<int>, dtype: DType)
    ensures var e := ElementSize(dtype);
      Plan(sizes, dtype) ==
      if sizes == [] then Failure(NoSizes)
      else if !NonNegative(sizes) then Failure(NegativeCount(Counts(Sort(sizes), e)[0]))
      else CheckRows(Sort(sizes), Counts(Sort(sizes), e), e)
  {
    SortKeepsElements(sizes);
    if sizes != [] {
      FirstCountSign(sizes, ElementSize(dtype));
    }
  }

  /** `benchmark` runs exactly when the size list is non-empty, no size is
      negative and every size is a whole number of elements. */
  lemma PlanSucceedsIff(sizes: seq<int>, dtype: DType)
    ensures Plan(sizes, dtype).Success? <==>
            |sizes| > 0 && NonNegative(sizes) && AllDivisible(sizes, ElementSize(dtype))
  {
    var e := ElementSize(dtype);
    var sorted := Sort(sizes);
    var counts := Counts(sorted, e);
    PlanIsCheckRows(sizes, dtype);
    SortKeepsElements(sizes);
    if sizes != [] && NonNegative(sizes) {
      CheckRowsSpec(sorted, counts, e);
      var ok := CheckRows(sorted, counts, e).Success?;
      assert ok <==> forall i :: 0 <= i < |sorted| ==> sorted[i] % e == 0;
      if AllDivisible(sizes, e) {
        forall i | 0 <= i < |sorted| ensures sorted[i] % e == 0 {
          assert sorted[i] in sorted;
        }
      }
      if ok {
        forall x | x in sizes ensures x % e == 0 {
          assert x in sorted;
        }
      }
    }
  }

  /** The rows of a completed loop carry the sizes in order, each with a
      count that times the element size gives back the size. */
  lemma CheckedRows(sizes: seq<int>, elementSize: nat)
    requires elementSize > 0
    requires CheckRows(sizes, Counts(sizes, elementSize), elementSize).Success?
    ensures var rows := CheckRows(sizes, Counts(sizes, elementSize), elementSize).value;
      RowSizes(rows) == sizes
      && forall i :: 0 <= i < |rows| ==> rows[i].count * elementSize == rows[i].size
  {
    var counts := Counts(sizes, elementSize);
    CheckRowsSpec(sizes, counts, elementSize);
    var rows := CheckRows(sizes, counts, elementSize).value;
    forall i | 0 <= i < |rows| ensures rows[i].count * elementSize == rows[i].size {
      assert rows[i] == Row(sizes[i], counts[i]);
      assert sizes[i] % elementSize == 0;
    }
  }

  /** A run measures one row per size, in ascending order of size, its
      sizes a permutation of the given ones, and every row's count times
      the element size is its size. */
  lemma PlanRows(sizes: seq<int>, dtype: DType)
    requires Plan(sizes, dtype).Success?
    ensures var rows := Plan(sizes, dtype).value;
      |rows| == |sizes|
      && multiset(RowSizes(rows)) == multiset(sizes)
      && (forall i, j :: 0 <= i < j < |rows| ==> rows[i].size <= rows[j].size)
      && (forall i :: 0 <= i < |rows| ==> rows[i].count * ElementSize(dtype) == rows[i].size)
  {
    var sorted := Sort(sizes);
    PlanIsCheckRows(sizes, dtype);
    SortKeepsElements(sizes);
    CheckedRows(sorted, ElementSize(dtype));
    var rows := Plan(sizes, dtype).value;
    assert RowSizes(rows) == sorted;
    forall i, j | 0 <= i < j < |rows| ensures rows[i].size <= rows[j].size {
      assert rows[i].size == RowSizes(rows)[i] && rows[j].size == RowSizes(rows)[j];
    }
  }

  /** When `benchmark` stops at the assertion, the size it names is the
      smallest size that is not a whole number of elements. */
  lemma PlanStopsAtSmallest(sizes: seq<int>, dtype: DType, bad: int)
    requires Plan(sizes, dtype) == Failure(NotDivisible(bad))
    ensures bad in sizes && bad % ElementSize(dtype) != 0
    ensures forall s :: s in sizes && s % ElementSize(dtype) != 0 ==> bad <= s
  {
    var e := ElementSize(dtype);
    var sorted := Sort(sizes);
    PlanIsCheckRows(sizes, dtype);
    SortKeepsElements(sizes);
    var k := CheckRowsStops(sorted, Counts(sorted, e), e);
    assert bad == sorted[k] && sorted[k] in sorted;
    forall s | s in sizes && s % e != 0 ensures bad <= s {
      assert s in sorted;
      var j :| 0 <= j < |sorted| && sorted[j] == s;
      assert k <= j;
      if k < j { assert sorted[k] <= sorted[j]; }
    }
  }

  /** `benchmark` stops at `counts[0]` exactly when it is given no sizes. */
  lemma PlanEmpty(sizes: seq<int>, dtype: DType)
    ensures Plan(sizes, dtype) == Failure(NoSizes) <==> sizes == []
  {
    var e := ElementSize(dtype);
    var sorted := Sort(sizes);
    PlanIsCheckRows(sizes, dtype);
    SortKeepsElements(sizes);
    if sizes != [] && NonNegative(sizes) && Plan(sizes, dtype).Failure? {
      var k := CheckRowsStops(sorted, Counts(sorted, e), e);
    }
  }

  /** The first warm-up allocation, `torch.empty(counts[0])`, fails exactly
      when some size is negative, and the count it refuses is negative. */
  lemma PlanNegative(sizes: seq<int>, dtype: DType)
    ensures Plan(sizes, dtype).Failure? && Plan(sizes, dtype).error.NegativeCount?
            <==> sizes != [] && !NonNegative(sizes)
    ensures Plan(sizes, dtype).Failure? && Plan(sizes, dtype).error.NegativeCount? ==>
            Plan(sizes, dtype).error.count < 0
  {
    var e := ElementSize(dtype);
    var sorted := Sort(sizes);
    PlanIsCheckRows(sizes, dtype);
    SortKeepsElements(sizes);
    if sizes != [] {
      FirstCountSign(sizes, e);
      if NonNegative(sizes) && Plan(sizes, dtype).Failure? {
        var k := CheckRowsStops(sorted, Counts(sorted, e), e);
      }
    }
  }

  /** The two warm-up tensors hold `counts[0]` and `counts[-1]` elements:
      the fewest and the most of any measured size. */
  lemma WarmupBounds(sizes: seq<int>, dtype: DType)
    requires |sizes| > 0
    ensures var counts := Counts(Sort(sizes), ElementSize(dtype));
      forall i :: 0 <= i < |counts| ==> counts[0] <= counts[i] <= counts[|counts| - 1]
  {
    var sorted := Sort(sizes);
    SortKeepsElements(sizes);
    var counts := Counts(sorted, ElementSize(dtype));
    CountsSorted(sorted, ElementSize(dtype));
    forall i | 0 <= i < |counts| ensures counts[0] <= counts[i] <= counts[|counts| - 1] {
      if 0 < i { assert counts[0] <= counts[i]; }
      if i < |counts| - 1 { assert counts[i] <= counts[|counts| - 1]; }
    }
  }
}
