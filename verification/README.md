# Verified model of the size and bandwidth logic of `test_dist.py`

`test_dist.py` benchmarks collective communication primitives (all-reduce,
all-gather, reduce-scatter, all-to-all and their tensor-buffer variants)
over a multi-process accelerator group. Nearly all of it calls into the
distributed runtime. This project models the deterministic logic around
those calls and proves properties of it:

- `SizeParse` (`size_parse.dfy`): `parse_size`, which turns "128M", "2g",
  "512KB" or "4096" into a byte count. Failures are values: `EmptySize`
  stands for the IndexError of `s[-1]`, `NotAnInteger` for the ValueError
  of `int()`.
- `SizeSweep` (`size_sweep.dfy`): the list of message sizes built in
  `__main__`. The geometric `while` loop (`factor > 1`) is a method proved
  against the recursive function `Geometric`. The arithmetic path is
  `list(range(begin, end + 1, step))`. `BuildSizes` is the whole block,
  from the three argument strings to the list.
- `ElementCount` (`element_count.dfy`): the size bookkeeping in
  `benchmark`. It covers the element size of the dtype, `sorted(sizes)`,
  one count per size, the IndexError of `counts[0]` on an empty list, the
  refusal of `torch.empty` to allocate a negative count, and the
  divisibility assertion.
- `CommOps` (`comm_ops.dfy`): the seven `CommOp` subclasses and their
  `bw_factor`, as exact reals. It also covers the `OPS` registry and the
  `--algorithm` choice, including "all".
- `Ascii` and `Results` (`ascii.dfy`, `results.dfy`): ASCII case mapping
  and the `Option`/`Result` types.

## Model

| member | source | states |
|---|---|---|
| SizeParse.ParseSize | test_dist.py:165-175 | `parse_size`: upper-case, drop one trailing B, then `ParseUnit`; its properties are the `ParseSize…` rows below |
| SizeParse.ParseUnit | test_dist.py:169-175 | the K/M/G branches and the final `int(s)`; `ParseSizeRender` and `ParseSizeSound` state what they compute |
| SizeParse.ParseInt | test_dist.py:170 | `int()` succeeds exactly on a non-empty decimal digit string; otherwise it fails and names the rejected text |
| SizeParse.ParseSizeRender | test_dist.py:165-175 | digits, then an optional K/M/G, then an optional B, parse to the digits' value times 1, 1024, 1024^2 or 1024^3; the trailing B changes nothing |
| SizeParse.ParseSizeOfUpper | test_dist.py:166 | the input's letter case never changes the result |
| SizeParse.ParseSizeIgnoresCase | test_dist.py:166 | two inputs that upper-case to the same string parse to the same result |
| SizeParse.ParseSizeSound | test_dist.py:165-175 | every accepted input is, up to case, digits + unit letter + optional B, and the result is the digits' value times the unit's multiplier |
| SizeParse.ParseSizeSucceedsIff | test_dist.py:165-175 | parsing succeeds exactly on the inputs of that shape, in any case |
| SizeParse.ParseSizeEmptyIff | test_dist.py:167-169 | the `s[-1]` IndexError happens exactly for "", "B" and "b" |
| SizeParse.ParseSizeSuffixExamples | test_dist.py:166-168 | "128mb", "128MB" and "128M" all give 128 MiB; "512" and "512B" both give 512 |
| SizeParse.ParseSizeUnitExamples | test_dist.py:169-174 | "2g" is 2 GiB and "512KB" is 512 KiB |
| SizeParse.ParseSizeValueErrorExamples | test_dist.py:169-175 | "KB" fails because `int("")` fails, and "1.5G" fails because `int("1.5")` fails |
| SizeSweep.Geometric | test_dist.py:197-199 | the list the geometric loop builds, by the loop's own recursion; `GeometricSweep` is proved to compute it, `GeometricClosedForm` and `GeometricShape` state its properties |
| SizeSweep.GeometricSweep | test_dist.py:193-199 | the `while start <= end` loop terminates when `begin > 0` or `begin > end`, and its list is `Geometric(begin, end, factor)` |
| SizeSweep.GeometricClosedForm | test_dist.py:197-199 | the k-th element is `begin * factor^k` and is at most `end`; the next power, `begin * factor^len`, exceeds `end` |
| SizeSweep.GeometricShape | test_dist.py:197-199 | the list starts with `begin` when `begin <= end` and is empty otherwise; each element is the previous one times `factor`; the list is positive and strictly increasing; last * factor > end |
| SizeSweep.GeometricDivergesFromNonPositive | test_dist.py:197-199 | when `begin <= 0` and `begin <= end`, every value `start` takes still satisfies `start <= end`, so the loop never stops |
| SizeSweep.RangeUp | test_dist.py:201-202 | `list(range(start, stop, step))` for a positive step; `RangeUpAt`, `RangeUpContains` and `ArithmeticSweep` state its contents |
| SizeSweep.Range | test_dist.py:201-202 | `range` with the step `parse_size` gives: a zero step is the error `ZeroStep`, otherwise `RangeUp` |
| SizeSweep.RangeUpAt | test_dist.py:201-202 | element k of `range(start, stop, step)` is `start + k*step` and lies below `stop` |
| SizeSweep.RangeUpContains | test_dist.py:201-202 | every `start + k*step` below `stop` is in the range |
| SizeSweep.ArithmeticSweep | test_dist.py:200-202 | `range(begin, end+1, step)` holds exactly the values `begin + k*step` that are at most `end`, in increasing order |
| SizeSweep.Sizes | test_dist.py:193-202 | the sizes list as a function of the three argument strings and the factor; `BuildSizes` computes it and `SizesErrors` states its errors |
| SizeSweep.BuildSizes | test_dist.py:193-202 | the sweep block yields `Sizes` of the three argument strings and the factor: the first unparsable argument is the error, a zero step is an error, and on the geometric path the step is never read |
| SizeSweep.SizesErrors | test_dist.py:193-202 | with `factor > 1` the step string does not affect the result; a zero step is an error exactly on the arithmetic path with both sizes readable |
| ElementCount.Bits | test_dist.py:130-133 | the bit width torch reports for each dtype: 32, 16, 16 and 8 |
| ElementCount.ElementSize | test_dist.py:130-133 | the element size is `bits // 8`: 4 for float, 2 for fp16 and bf16, 1 for uint8 |
| ElementCount.Insert | test_dist.py:134 | inserting into a sorted list keeps it sorted and adds exactly one copy of the element |
| ElementCount.Sort | test_dist.py:134 | `sorted(sizes)` is sorted and a permutation of `sizes` |
| ElementCount.SortedPermutationUnique | test_dist.py:134 | two sorted permutations of the same sizes are equal, so `Sort` agrees with Python's `sorted` |
| ElementCount.Counts | test_dist.py:135 | one count per size, with `count * element_size <= size < (count + 1) * element_size` |
| ElementCount.CountsSorted | test_dist.py:134-135 | counts of sorted sizes are sorted |
| ElementCount.WarmupBounds | test_dist.py:136-141 | the warm-up tensors of `counts[0]` and `counts[-1]` elements are the smallest and the largest count |
| ElementCount.CheckRows | test_dist.py:146-147 | the row loop with its divisibility assertion, row by row in order; `CheckRowsSpec` and `CheckRowsStops` state what it yields |
| ElementCount.Plan | test_dist.py:129-147 | what `benchmark` measures or where it stops: sort, count, `counts[0]` (empty list, negative count), then the row loop; the `Plan…` rows state its properties |
| ElementCount.FirstCountSign | test_dist.py:134-137 | the count of the smallest size, `counts[0]`, is negative exactly when some size is |
| ElementCount.CheckRowsSpec | test_dist.py:146-147 | the row loop gets through every row exactly when every size is divisible by the element size, and then pairs each size with its count |
| ElementCount.CheckRowsStops | test_dist.py:146-147 | when the assertion fails, it fails at the first size that is not divisible |
| ElementCount.PlanSucceedsIff | test_dist.py:129-147 | `benchmark` gets through its sizes exactly when the list is non-empty, no size is negative and every size is divisible by the element size |
| ElementCount.PlanRows | test_dist.py:134-147 | on success there is one row per size; the row sizes are a permutation of the input in ascending order; every row has `count * element_size == size` |
| ElementCount.PlanStopsAtSmallest | test_dist.py:134-147 | the assertion failure names the smallest size that is not divisible by the element size |
| ElementCount.PlanEmpty | test_dist.py:134-137 | `counts[0]` raises exactly when the size list is empty |
| ElementCount.PlanNegative | test_dist.py:134-137 | the first warm-up `torch.empty(counts[0])` fails, on a negative count, exactly when the list is non-empty and some size is negative |
| CommOps.BwFactor | test_dist.py:44-106 | the seven `bw_factor` methods as exact reals, `2(w-1)/w` for all-reduce and `(w-1)/w` otherwise; a world size of 0 is excluded as the division would raise; `AllReduceIsTwice`, `BwFactorBounds` and `BwFactorGrows` state its properties |
| CommOps.AllReduceIsTwice | test_dist.py:44-106 | all-reduce's factor `2(w-1)/w` is exactly twice the `(w-1)/w` of every other op |
| CommOps.BwFactorBounds | test_dist.py:44-106 | for `w >= 1`, every factor is 0 exactly when `w == 1`; the other ops' factors lie in [0, 1) and all-reduce's in [0, 2) |
| CommOps.BwFactorGrows | test_dist.py:44-106 | every factor strictly grows with the world size |
| CommOps.Name | test_dist.py:109-117 | the `OPS` key of each op; `LookupName` proves it inverse to `Lookup` |
| CommOps.Lookup | test_dist.py:109-117 | `OPS[name]`, with `None` where the dict raises KeyError |
| CommOps.LookupName | test_dist.py:109-117 | the `OPS` registry is one-to-one: each op is found under its own name and under no other |
| CommOps.AllOrderSpec | test_dist.py:211-212 | "all" runs each of the seven ops exactly once |
| CommOps.OpsToRun | test_dist.py:211-219 | the ops `--algorithm` selects after `.lower()`: all seven for "all", else the registered op, else a KeyError; `OpsToRunSpec` states its properties |
| CommOps.OpsToRunSpec | test_dist.py:211-219 | every op runs alone under its registry name in lower or upper case; "all", "ALL" and "All" run the seven ops of `AllOrder`; names equal after lower-casing choose the same; any choice is one op or seven, all registered |
| Ascii.ToUpper | test_dist.py:166 | `str.upper()` on ASCII letters; `ParseSizeOfUpper` relies on its idempotence |
| Ascii.ToLower | test_dist.py:211 | `str.lower()` on ASCII letters |
| Ascii.ToLowerToUpper | test_dist.py:211 | a string without upper-case letters comes back from lower-casing its upper-cased form, so an upper-cased registry key still selects its op |

## Left out

- `init_dist`, `get_time` and `log` (test_dist.py:10-28): environment reads, process-group setup, device selection, synchronisation and printing.
- Every `CommOp.__call__` (test_dist.py:45-103): calls into the collectives of `torch.distributed`, including `torch.chunk` splitting. Their semantics belong to the runtime.
- `collect_time` and the timing and bandwidth arithmetic of `benchmark` (test_dist.py:120-126, 150-162): wall-clock time, GPU tensors, the all-reduce of durations, float `algbw`/`busbw`/average and the PrettyTable output. `Plan` stops at the list of (size, count) rows these would measure.
- `argparse` handling, its defaults, and the mapping of dtype names to torch types (test_dist.py:179-190, 203-210): plumbing. `DType` stands for the four choices, and `Bits` gives the bit widths torch reports for them.
- ParseInt: accepts only non-empty ASCII decimal digit strings. Python's `int()` also takes surrounding whitespace, a sign, underscores between digits and non-ASCII digits, so inputs such as " 128M" or "-4" are refused here but accepted by the source.
- ParseSize: upper-cases ASCII letters only. Python's `str.upper()` also maps other letters, some into several characters. No input of that kind parses in this model.
- GeometricSweep: requires `begin > 0 || begin > end`. Otherwise the source's loop never terminates, which `GeometricDivergesFromNonPositive` states. With sizes from `parse_size` this means `-b 0` together with `-f` above 1.
- Range: models `range` for a step of 0 (an error) or above 0 only. The step comes from `parse_size`, which never yields a negative value in this model.
- Plan: the only allocation failure it models is `torch.empty` refusing a negative count at `counts[0]`; running out of device memory and the other warm-up and row allocations are runtime behaviour. Negative sizes reach `benchmark` only through a signed `int()`, which ParseInt refuses.
- BwFactor: is an exact real. Python returns a double rounded from the same quotient. It requires a world size other than 0, which the runtime always reports as at least 1.
