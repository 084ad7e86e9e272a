/** The communication operations the benchmark can time, their registry
    names, and the bus-bandwidth factor each reports. */
module CommOps {
  import opened Results
  import opened Ascii

  /** The seven `CommOp` subclasses. */
  datatype Op =
    | AllReduce | AllGather | AllGatherTensor | ReduceScatter
    | ReduceScatterTensor | Alltoall | AlltoallSingle

  /** `op.bw_factor()` for a group of `worldSize` processes, as an exact
      real: `2(w-1)/w` for all-reduce, `(w-1)/w` for every other op. Python
      divides by `world_size`, so zero raises. */
  function BwFactor(op: Op, worldSize: int): real
    requires worldSize != 0
  {
    match op
    case AllReduce => 2.0 * (worldSize - 1) as real / worldSize as real
    case AllGather => (worldSize - 1) as real / worldSize as real
    case AllGatherTensor => (worldSize - 1) as real / worldSize as real
    case ReduceScatter => (worldSize - 1) as real / worldSize as real
    case ReduceScatterTensor => (worldSize - 1) as real / worldSize as real
    case Alltoall => (worldSize - 1) as real / worldSize as real
    case AlltoallSingle => (worldSize - 1) as real / worldSize as real
  }

  /** All-reduce moves twice the data of every other op: its factor is
      exactly twice theirs. */
  lemma AllReduceIsTwice(op: Op, worldSize: int)
    requires worldSize != 0 && op != AllReduce
    ensures BwFactor(AllReduce, worldSize) == 2.0 * BwFactor(op, worldSize)
  {
  }

  lemma PositiveFactor(a: real, w: real)
    requires w > 0.0 && a * w > 0.0
    ensures a > 0.0
  {
  }

  lemma FractionBounds(n: real, w: real)
    requires w > 0.0 && 0.0 <= n < w
    ensures 0.0 <= n / w < 1.0
  {
    var q := n / w;
    assert (1.0 - q) * w == w - n;
    PositiveFactor(1.0 - q, w);
  }

  /** With one process nothing crosses the bus; with `worldSize >= 1` every
      factor is zero exactly then, the other ops' factors lie in [0, 1) and
      all-reduce's in [0, 2). */
  lemma BwFactorBounds(op: Op, worldSize: int)
    requires worldSize >= 1
    ensures BwFactor(op, worldSize) == 0.0 <==> worldSize == 1
    ensures op != AllReduce ==> 0.0 <= BwFactor(op, worldSize) < 1.0
    ensures op == AllReduce ==> 0.0 <= BwFactor(op, worldSize) < 2.0
  {
    var f := (worldSize - 1) as real / worldSize as real;
    FractionBounds((worldSize - 1) as real, worldSize as real);
    assert f * worldSize as real == (worldSize - 1) as real;
    if op == AllReduce {
      assert BwFactor(op, worldSize) == 2.0 * f;
    } else {
      assert BwFactor(op, worldSize) == f;
    }
  }

  /** Larger groups have strictly larger factors, approaching 1 (or 2). */
  lemma BwFactorGrows(op: Op, w: int, w': int)
    requires 1 <= w < w'
    ensures BwFactor(op, w) < BwFactor(op, w')
  {
    var f := (w - 1) as real / w as real;
    var f' := (w' - 1) as real / w' as real;
    assert f == 1.0 - 1.0 / w as real;
    assert f' == 1.0 - 1.0 / w' as real;
    assert 1.0 / w' as real < 1.0 / w as real by {
      assert (1.0 / w' as real) * w' as real == 1.0;
      assert (1.0 / w as real) * w as real == 1.0;
    }
    if op == AllReduce {
      assert BwFactor(op, w) == 2.0 * f && BwFactor(op, w') == 2.0 * f';
    } else {
      assert BwFactor(op, w) == f && BwFactor(op, w') == f';
    }
  }

  /** The `OPS` registry key of each op. */
  function Name(op: Op): string {
    match op
    case AllReduce => "allreduce"
    case AllGather => "allgather"
    case ReduceScatter => "reducescatter"
    case Alltoall => "alltoall"
    case AllGatherTensor => "allgather_t"
    case ReduceScatterTensor => "reducescatter_t"
    case AlltoallSingle => "alltoall_single"
  }

  /** `OPS[name]`: the op registered under `name`, if any. */
  function Lookup(name: string): Option<Op> {
    if name == "allreduce" then Some(AllReduce)
    else if name == "allgather" then Some(AllGather)
    else if name == "reducescatter" then Some(ReduceScatter)
    else if name == "alltoall" then Some(Alltoall)
    else if name == "allgather_t" then Some(AllGatherTensor)
    else if name == "reducescatter_t" then Some(ReduceScatterTensor)
    else if name == "alltoall_single" then Some(AlltoallSingle)
    else None
  }

  /** The registry is one-to-one: every op is found under its name and
      under no other. */
  lemma LookupName(op: Op, name: string)
    ensures Lookup(Name(op)) == Some(op)
    ensures Lookup(name) == Some(op) ==> name == Name(op)
  {
  }

  /** The order in which `--algorithm all` runs the ops. */
  const AllOrder: seq<Op> :=
    [AllReduce, AllGather, AllGatherTensor, ReduceScatter, ReduceScatterTensor, Alltoall, AlltoallSingle]

  /** Looking up an unknown name in `OPS` raises KeyError. */
  datatype UnknownOp = UnknownOp(name: string)

  /** The ops `__main__` benchmarks for `--algorithm`, in order: all seven
      for "all" (in any case), otherwise the one registered under the
      lower-cased name. */
  function OpsToRun(algorithm: string): Result<seq<Op>, UnknownOp> {
    var name := ToLower(algorithm);
    if name == "all" then Success(AllOrder)
    else
      match Lookup(name)
      case Some(op) => Success([op])
      case None => Failure(UnknownOp(name))
  }

  /** "all" runs every registered op exactly once. */
  lemma AllOrderSpec()
    ensures forall op :: op in AllOrder
    ensures forall i, j :: 0 <= i < j < |AllOrder| ==> AllOrder[i] != AllOrder[j]
  {
    forall op ensures op in AllOrder {
      match op
      case AllReduce => assert AllOrder[0] == op;
      case AllGather => assert AllOrder[1] == op;
      case AllGatherTensor => assert AllOrder[2] == op;
      case ReduceScatter => assert AllOrder[3] == op;
      case ReduceScatterTensor => assert AllOrder[4] == op;
      case Alltoall => assert AllOrder[5] == op;
      case AlltoallSingle => assert AllOrder[6] == op;
    }
  }

  /** The registry keys hold no upper-case letters. */
  lemma NameIsLower(op: Op)
    ensures forall i :: 0 <= i < |Name(op)| ==> !('A' <= Name(op)[i] <= 'Z')
  {
  }

  /** `--algorithm` is case-insensitive: every op runs alone under its
      registry name, in lower or upper case; "all" in any case runs the
      seven ops of `AllOrder`; names that lower-case alike choose alike;
      and whatever is chosen is one op or all seven, each a registered op. */
  lemma OpsToRunSpec(algorithm: string, algorithm': string)
    ensures forall op :: OpsToRun(Name(op)) == Success([op])
                         && OpsToRun(ToUpper(Name(op))) == Success([op])
    ensures OpsToRun("all") == OpsToRun("ALL") == OpsToRun("All") == Success(AllOrder)
    ensures ToLower(algorithm) == ToLower(algorithm') ==> OpsToRun(algorithm) == OpsToRun(algorithm')
    ensures OpsToRun(algorithm).Success? ==>
              |OpsToRun(algorithm).value| in {1, 7}
              && forall op :: op in OpsToRun(algorithm).value ==> op in AllOrder
  {
    AllOrderSpec();
    forall op
      ensures OpsToRun(Name(op)) == Success([op])
      ensures OpsToRun(ToUpper(Name(op))) == Success([op])
    {
      NameIsLower(op);
      ToLowerToUpper(Name(op));
      LookupName(op, Name(op));
      assert ToLower(Name(op)) == Name(op);
    }
    assert ToLower("ALL") == "all" && ToLower("All") == "all" && ToLower("all") == "all";
  }
}
