// Solution layout of the parallel-machine scheduling problem and its K2
// objective: the sum over all jobs of their completion times.

module Schedule {

  const U32Modulus: int := 0x1_0000_0000
  const U64Modulus: int := 0x1_0000_0000_0000_0000

  type U32 = x: int | 0 <= x < U32Modulus
  type U64 = x: int | 0 <= x < U64Modulus
  type Byte = x: int | 0 <= x < 256

  /** N jobs, M machines and the processing time of every job (t has N entries;
      the index of an entry is the job's identity). */
  datatype Instance = Instance(n: U32, m: U32, t: seq<U32>)

  // ---------------------------------------------------------------------------
  // The K2 criterion, as functions of the machine orders

  /** Every job named in the order has a processing time. */
  predicate ValidOrder(order: seq<U32>, t: seq<U32>) {
    forall k :: 0 <= k < |order| ==> order[k] < |t|
  }

  predicate ValidOrders(orders: seq<seq<U32>>, t: seq<U32>) {
    forall j :: 0 <= j < |orders| ==> ValidOrder(orders[j], t)
  }

  /** Total processing time of the jobs in the order: the completion time of
      the last of them. */
  function Load(order: seq<U32>, t: seq<U32>): nat
    requires ValidOrder(order, t)
  {
    if order == [] then 0 else Load(order[..|order| - 1], t) + t[order[|order| - 1]]
  }

  /** Sum of the completion times of the jobs of one machine: the sum of the
      prefix sums of their processing times. */
  function Completion(order: seq<U32>, t: seq<U32>): nat
    requires ValidOrder(order, t)
  {
    if order == [] then 0 else Completion(order[..|order| - 1], t) + Load(order, t)
  }

  /** K2: the per-machine sums of completion times, added over all machines. */
  function K2(orders: seq<seq<U32>>, t: seq<U32>): nat
    requires ValidOrders(orders, t)
  {
    if orders == [] then 0
    else K2(orders[..|orders| - 1], t) + Completion(orders[|orders| - 1], t)
  }

  /** Sum of all processing times of all scheduled jobs. */
  function TotalLoad(orders: seq<seq<U32>>, t: seq<U32>): nat
    requires ValidOrders(orders, t)
  {
    if orders == [] then 0
    else TotalLoad(orders[..|orders| - 1], t) + Load(orders[|orders| - 1], t)
  }

  /** An independent formula for one machine: the job in position k is waited
      for by itself and every job after it, so it counts |order| - k times. */
  function Weighted(order: seq<U32>, t: seq<U32>): nat
    requires ValidOrder(order, t)
  {
    if order == [] then 0 else t[order[0]] * |order| + Weighted(order[1..], t)
  }

  // ---------------------------------------------------------------------------
  // The solution object

  /** A candidate schedule: the N×M 0/1 incidence matrix H, stored row-major,
      and the job order on each of the M machines. */
  class ScheduleSolution {
    const inst: Instance
    var H: seq<Byte>
    var G: seq<seq<U32>>

    /** H gets N*M zero entries, where N*M is computed in 32-bit unsigned
        arithmetic; G gets M empty orders. */
    constructor (inst: Instance)
      ensures this.inst == inst
      ensures |H| == (inst.n * inst.m) % U32Modulus
      ensures inst.n * inst.m < U32Modulus ==> |H| == inst.n * inst.m
      ensures inst.n == 65536 && inst.m == 65536 ==> |H| == 0
      ensures forall k :: 0 <= k < |H| ==> H[k] == 0
      ensures |G| == inst.m
      ensures forall j :: 0 <= j < |G| ==> G[j] == []
    {
      this.inst := inst;
      H := seq((inst.n * inst.m) % U32Modulus, _ => 0);
      G := seq(inst.m, _ => []);
    }
  }

  /** Cell of job i on machine j in the row-major matrix. */
  function CellIndex(m: nat, i: nat, j: nat): (r: nat)
    requires j < m
    ensures r / m == i && r % m == j
  {
    DivModUnique(i * m + j, m, i, j);
    i * m + j
  }

  /** Quotient and remainder are the only such pair. */
  lemma DivModUnique(r: nat, m: nat, i: nat, j: nat)
    requires j < m && r == i * m + j
    ensures r / m == i && r % m == j
  {
    var q, s := r / m, r % m;
    assert r == q * m + s;
    if q > i {
      MulMonotone(i + 1, q, m);
      assert false;
    } else if q < i {
      MulMonotone(q + 1, i, m);
      assert false;
    }
  }

  /** Every cell of an N×M matrix lies below N*M. */
  lemma CellIndexInRange(n: nat, m: nat, i: nat, j: nat)
    requires i < n && j < m
    ensures CellIndex(m, i, j) < n * m
  {
    calc {
      CellIndex(m, i, j);
    <  i * m + m;
    == (i + 1) * m;
    <= { MulMonotone(i + 1, n, m); } n * m;
    }
  }

  lemma MulMonotone(a: nat, b: nat, m: nat)
    requires a <= b
    ensures a * m <= b * m
  {
  }

  /** Two different (job, machine) pairs never share a cell. */
  lemma CellIndexInjective(m: nat, i: nat, j: nat, i': nat, j': nat)
    requires j < m && j' < m
    requires CellIndex(m, i, j) == CellIndex(m, i', j')
    ensures i == i' && j == j'
  {
  }

  // ---------------------------------------------------------------------------
  // evalK2

  /** Walks every machine order, with a running completion time acc that
      restarts at 0 on each machine and is added to sum after every job; both
      are 64-bit unsigned and wrap around. */
  method EvalK2(s: ScheduleSolution) returns (sum: U64)
    requires ValidOrders(s.G, s.inst.t)
    ensures sum == K2(s.G, s.inst.t) % U64Modulus
    ensures K2(s.G, s.inst.t) < U64Modulus ==> sum == K2(s.G, s.inst.t)
  {
    var t := s.inst.t;
    var orders := s.G;
    sum := 0;
    var j := 0;
    while j < |orders|
      invariant 0 <= j <= |orders|
      invariant ValidOrders(orders[..j], t)
      invariant sum == K2(orders[..j], t) % U64Modulus
    {
      var order := orders[j];
      ghost var base := K2(orders[..j], t);
      var acc: U64 := 0;
      var k := 0;
      while k < |order|
        invariant 0 <= k <= |order|
        invariant ValidOrder(order[..k], t)
        invariant acc == Load(order[..k], t) % U64Modulus
        invariant sum == (base + Completion(order[..k], t)) % U64Modulus
      {
        JobStep(base, order, t, k, acc, sum);
        acc := (acc + t[order[k]]) % U64Modulus;
        sum := (sum + acc) % U64Modulus;
        k := k + 1;
      }
      MachineStep(orders, t, j);
      j := j + 1;
    }
    assert orders[..j] == orders;
  }

  /** One job of the inner loop: the running total gains the job's time and
      the sum gains the new running total, both modulo 2^64. */
  lemma JobStep(base: nat, order: seq<U32>, t: seq<U32>, k: nat, acc: nat, sum: nat)
    requires k < |order| && order[k] < |t| && ValidOrder(order[..k], t)
    requires acc == Load(order[..k], t) % U64Modulus
    requires sum == (base + Completion(order[..k], t)) % U64Modulus
    ensures ValidOrder(order[..k + 1], t)
    ensures (acc + t[order[k]]) % U64Modulus == Load(order[..k + 1], t) % U64Modulus
    ensures (sum + (acc + t[order[k]]) % U64Modulus) % U64Modulus
         == (base + Completion(order[..k + 1], t)) % U64Modulus
  {
    var before := order[..k];
    var after := order[..k + 1];
    assert after[..k] == before && after[k] == order[k];
    assert ValidOrder(after, t) by {
      forall x | 0 <= x < |after| ensures after[x] < |t| {
        if x < k { assert after[x] == before[x]; }
      }
    }
    var load := Load(after, t);
    assert load == Load(before, t) + t[order[k]];
    AddMod(Load(before, t), t[order[k]]);
    var rest := base + Completion(before, t);
    assert Completion(after, t) == Completion(before, t) + load;
    AddMod(load, rest);
    AddMod(rest, load % U64Modulus);
    AddMod(rest, load);
  }

  /** One machine of the outer loop: K2 over the first j + 1 machines adds the
      completion sum of machine j. */
  lemma MachineStep(orders: seq<seq<U32>>, t: seq<U32>, j: nat)
    requires j < |orders| && ValidOrders(orders, t)
    ensures ValidOrders(orders[..j + 1], t)
    ensures ValidOrder(orders[j], t) && orders[j][..|orders[j]|] == orders[j]
    ensures K2(orders[..j + 1], t) == K2(orders[..j], t) + Completion(orders[j], t)
  {
    var done := orders[..j + 1];
    assert done[..j] == orders[..j] && done[j] == orders[j];
  }

  /** Adding to a value already reduced modulo 2^64 reduces like adding to the value. */
  lemma AddMod(a: nat, b: nat)
    ensures (a % U64Modulus + b) % U64Modulus == (a + b) % U64Modulus
  {
    var q := a / U64Modulus;
    assert a == q * U64Modulus + a % U64Modulus;
    ModShift(a % U64Modulus + b, q);
  }

  lemma ModShift(x: nat, q: nat)
    ensures (x + q * U64Modulus) % U64Modulus == x % U64Modulus
  {
    if q > 0 {
      ModShift(x, q - 1);
      assert x + q * U64Modulus == (x + (q - 1) * U64Modulus) + U64Modulus;
    }
  }

  // ---------------------------------------------------------------------------
  // Properties of K2

  /** With every machine idle the objective is 0. */
  lemma {:induction false} K2AllIdle(orders: seq<seq<U32>>, t: seq<U32>)
    requires forall j :: 0 <= j < |orders| ==> orders[j] == []
    ensures ValidOrders(orders, t) && K2(orders, t) == 0
  {
    if orders != [] {
      K2AllIdle(orders[..|orders| - 1], t);
    }
  }

  /** Machines contribute independently: replacing the order of machine j
      changes K2 by exactly the change in that machine's own term. */
  lemma {:induction false} K2ReplaceMachine(orders: seq<seq<U32>>, t: seq<U32>, j: nat, order: seq<U32>)
    requires ValidOrders(orders, t) && j < |orders| && ValidOrder(order, t)
    ensures ValidOrders(orders[j := order], t)
    ensures K2(orders[j := order], t) + Completion(orders[j], t) == K2(orders, t) + Completion(order, t)
  {
    var n := |orders|;
    var changed := orders[j := order];
    assert ValidOrders(changed, t) by {
      forall k | 0 <= k < n ensures ValidOrder(changed[k], t) {
        if k != j { assert changed[k] == orders[k]; }
      }
    }
    assert changed[..n - 1] == if j < n - 1 then orders[..n - 1][j := order] else orders[..n - 1];
    if j < n - 1 {
      K2ReplaceMachine(orders[..n - 1], t, j, order);
    }
  }

  /** Appending job x to machine j raises K2 by the new total load of machine j,
      which is the completion time of the appended job. */
  lemma K2AppendJob(orders: seq<seq<U32>>, t: seq<U32>, j: nat, x: U32)
    requires ValidOrders(orders, t) && j < |orders| && x < |t|
    ensures ValidOrders(orders[j := orders[j] + [x]], t)
    ensures K2(orders[j := orders[j] + [x]], t) == K2(orders, t) + Load(orders[j] + [x], t)
  {
    var longer := orders[j] + [x];
    assert ValidOrder(orders[j], t);
    assert ValidOrder(longer, t) by {
      forall k | 0 <= k < |longer| ensures longer[k] < |t| {
        if k < |orders[j]| { assert longer[k] == orders[j][k]; }
      }
    }
    assert longer[..|longer| - 1] == orders[j];
    K2ReplaceMachine(orders, t, j, longer);
  }

  /** Each job's own time is part of the running total that is added after it,
      so K2 is at least the total processing time of all scheduled jobs. */
  lemma {:induction false} K2AtLeastTotalLoad(orders: seq<seq<U32>>, t: seq<U32>)
    requires ValidOrders(orders, t)
    ensures K2(orders, t) >= TotalLoad(orders, t)
  {
    if orders != [] {
      var n := |orders|;
      K2AtLeastTotalLoad(orders[..n - 1], t);
      var last := orders[n - 1];
      assert ValidOrder(last, t);
      if last != [] {
        assert ValidOrder(last[..|last| - 1], t);
      }
    }
  }

  lemma {:induction false} LoadFront(x: U32, rest: seq<U32>, t: seq<U32>)
    requires x < |t| && ValidOrder(rest, t)
    ensures ValidOrder([x] + rest, t)
    ensures Load([x] + rest, t) == t[x] + Load(rest, t)
  {
    var o := [x] + rest;
    assert ValidOrder(o, t) by {
      forall k | 0 <= k < |o| ensures o[k] < |t| {
        if k > 0 { assert o[k] == rest[k - 1]; }
      }
    }
    if rest != [] {
      var r := rest[..|rest| - 1];
      assert o[..|o| - 1] == [x] + r;
      assert ValidOrder(r, t);
      LoadFront(x, r, t);
    }
  }

  lemma {:induction false} CompletionFront(x: U32, rest: seq<U32>, t: seq<U32>)
    requires x < |t| && ValidOrder(rest, t)
    ensures ValidOrder([x] + rest, t)
    ensures Completion([x] + rest, t) == t[x] * (|rest| + 1) + Completion(rest, t)
  {
    LoadFront(x, rest, t);
    var o := [x] + rest;
    if rest == [] {
      assert o[..|o| - 1] == [];
    } else {
      var r := rest[..|rest| - 1];
      assert o[..|o| - 1] == [x] + r;
      assert ValidOrder(r, t);
      CompletionFront(x, r, t);
    }
  }

  /** The prefix-sum walk agrees with the weighted formula: a machine's K2 term
      is the sum of t[o[k]] * (|o| - k). */
  lemma {:induction false} CompletionIsWeighted(order: seq<U32>, t: seq<U32>)
    requires ValidOrder(order, t)
    ensures Completion(order, t) == Weighted(order, t)
  {
    if order != [] {
      var rest := order[1..];
      assert order == [order[0]] + rest;
      assert ValidOrder(rest, t);
      CompletionFront(order[0], rest, t);
      CompletionIsWeighted(rest, t);
    }
  }

  /** Four jobs with times 3, 1, 4, 2 on two machines, ordered [1, 3] and [0, 2]:
      completions 1, 3 and 3, 7, so K2 is 14. */
  lemma TwoMachineExample()
    ensures ValidOrders([[1, 3], [0, 2]], [3, 1, 4, 2])
    ensures K2([[1, 3], [0, 2]], [3, 1, 4, 2]) == 14
  {
    var t: seq<U32> := [3, 1, 4, 2];
    var a: seq<U32> := [1, 3];
    var b: seq<U32> := [0, 2];
    assert a[..1] == [1] && b[..1] == [0];
    assert Load([1], t) == 1 && Load(a, t) == 3;
    assert Completion(a, t) == 4;
    assert Load([0], t) == 3 && Load(b, t) == 7;
    assert Completion(b, t) == 10;
    var orders: seq<seq<U32>> := [a, b];
    assert orders[..1] == [a];
    assert K2([a], t) == 4;
  }
}
