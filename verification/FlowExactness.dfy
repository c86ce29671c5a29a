/** When the shared counter is exact, and by how much it can be off when it is not. */
module FlowExactness {
  import opened Wrappers
  import opened Xdp
  import opened SharedCounter

  // ---- runs that lose nothing

  /** No CPU is mid-packet on `k` between the reader's log and delete of it, and no two CPUs have
      missed on `k` together. */
  predicate Quiet<K(==)>(s: State<K>, k: K) {
    && (s.reader.Logged? && s.reader.key == k ==> forall c | 0 <= c < |s.cpus| :: !Busy(s.cpus[c], k))
    && (forall c, d | 0 <= c < d < |s.cpus| :: !(s.cpus[c] == Missed(k) && s.cpus[d] == Missed(k)))
  }

  predicate Refuses<K(==)>(s: State<K>, step: Step<K>, k: K) {
    step.Refused? && MissedBy(s, step.cpu, k)
  }

  predicate QuietRun<K(==)>(s: State<K>, steps: seq<Step<K>>, k: K)
    requires Valid(s, steps)
    decreases |steps|
  {
    Quiet(s, k)
    && (steps != [] ==> !Refuses(s, steps[0], k) && QuietRun(Apply(s, steps[0]), steps[1..], k))
  }

  /** Pointers to `k` are to its current element, a pending miss means `k` is absent, and the logged
      value is still the count. */
  predicate UpToDate<K(==)>(s: State<K>, k: K) {
    && (forall c | 0 <= c < |s.cpus| && s.cpus[c] == Missed(k) :: k !in s.table)
    && (forall c | 0 <= c < |s.cpus| && s.cpus[c].Holding? && s.cpus[c].key == k ::
          k in s.table && s.table[k] == s.cpus[c].elem)
    && (s.reader.Logged? && s.reader.key == k ==>
          k in s.table && s.table[k] == s.reader.elem && InMap(s, k) == s.reader.value)
  }

  lemma QuietStepOfCpu<K>(s: State<K>, step: Step<K>, k: K)
    requires Inv(s) && Enabled(s, step) && UpToDate(s, k) && Quiet(s, k)
    requires step.Lookup? || step.Add? || step.Insert? || step.Refused?
    ensures UpToDate(Apply(s, step), k)
  {
  }

  lemma QuietStepOfReader<K>(s: State<K>, step: Step<K>, k: K)
    requires Inv(s) && Enabled(s, step) && UpToDate(s, k) && Quiet(s, k)
    requires !(step.Lookup? || step.Add? || step.Insert? || step.Refused?)
    ensures UpToDate(Apply(s, step), k)
  {
  }

  lemma QuietStep<K>(s: State<K>, step: Step<K>, k: K)
    requires Inv(s) && Enabled(s, step) && UpToDate(s, k) && Quiet(s, k) && !Refuses(s, step, k)
    ensures Loss(s, step, k) == 0 && UpToDate(Apply(s, step), k)
  {
    hide Apply;
    if step.Lookup? || step.Add? || step.Insert? || step.Refused? {
      QuietStepOfCpu(s, step, k);
    } else {
      QuietStepOfReader(s, step, k);
    }
  }

  lemma {:induction false} QuietRunLosesNothing<K>(s: State<K>, steps: seq<Step<K>>, k: K)
    requires Inv(s) && Valid(s, steps) && UpToDate(s, k) && QuietRun(s, steps, k)
    ensures Losses(s, steps, k) == 0
    decreases |steps|
  {
    hide Quiet, UpToDate, Inv, Enabled, Apply, Loss;
    if steps == [] {
    } else {
      QuietStep(s, steps[0], k);
      StepKeepsInv(s, steps[0]);
      QuietRunLosesNothing(Apply(s, steps[0]), steps[1..], k);
    }
  }

  /** Logged plus remaining equals handled when no CPU is mid-packet on the flow in the reader's
      window, no insert of it is refused and no two CPUs miss on it together. */
  lemma QuietConservation<K>(parse: Frame -> Option<K>, capacity: nat, cpus: nat, steps: seq<Step<K>>, k: K)
    requires Valid(Init(parse, capacity, cpus), steps) && QuietRun(Init(parse, capacity, cpus), steps, k)
    ensures var t := Run(Init(parse, capacity, cpus), steps); t.handled[k] == InRows(t.rows, k) + Unlogged(t, k)
  {
    QuietRunLosesNothing(Init(parse, capacity, cpus), steps, k);
    Conservation(parse, capacity, cpus, steps, k);
  }

  // ---- counting without deletion

  /** CPUs that are about to insert `k`. */
  function Pending<K(==)>(cpus: seq<Cpu<K>>, k: K): nat {
    if cpus == [] then 0 else (if cpus[0] == Missed(k) then 1 else 0) + Pending(cpus[1..], k)
  }

  predicate PointsElsewhere<K(==)>(c: Cpu<K>, k: K, e: nat) {
    c.Holding? && c.key == k && c.elem != e
  }

  /** CPUs that hold a pointer to an element of `k` other than `e`. */
  function Stale<K(==)>(cpus: seq<Cpu<K>>, k: K, e: nat): nat {
    if cpus == [] then 0 else (if PointsElsewhere(cpus[0], k, e) then 1 else 0) + Stale(cpus[1..], k, e)
  }

  lemma {:induction false} CountsAfter<K>(cpus: seq<Cpu<K>>, c: nat, x: Cpu<K>, k: K, e: nat)
    requires c < |cpus|
    ensures Pending(cpus[c := x], k) + (if cpus[c] == Missed(k) then 1 else 0)
         == Pending(cpus, k) + (if x == Missed(k) then 1 else 0)
    ensures Stale(cpus[c := x], k, e) + (if PointsElsewhere(cpus[c], k, e) then 1 else 0)
         == Stale(cpus, k, e) + (if PointsElsewhere(x, k, e) then 1 else 0)
    decreases c
  {
    if c == 0 {
      assert cpus[0 := x][1..] == cpus[1..];
    } else {
      assert cpus[c := x][1..] == cpus[1..][c - 1 := x];
      CountsAfter(cpus[1..], c - 1, x, k, e);
    }
  }

  lemma {:induction false} PendingBound<K>(cpus: seq<Cpu<K>>, k: K)
    ensures Pending(cpus, k) <= |cpus|
    ensures (exists c | 0 <= c < |cpus| :: cpus[c] != Missed(k)) ==> Pending(cpus, k) < |cpus|
    ensures Pending(cpus, k) == 0 ==> forall c | 0 <= c < |cpus| :: cpus[c] != Missed(k)
    decreases |cpus|
  {
    if cpus == [] {
    } else {
      PendingBound(cpus[1..], k);
      assert forall c | 1 <= c < |cpus| :: cpus[c] == cpus[1..][c - 1];
    }
  }

  predicate Overwrites<K(==)>(s: State<K>, step: Step<K>, k: K) {
    step.Insert? && MissedBy(s, step.cpu, k) && k in s.table
  }

  /** How often the count of `k` is overwritten or an insert of it refused. */
  function Collisions<K(==)>(s: State<K>, steps: seq<Step<K>>, k: K): nat
    requires Valid(s, steps)
    decreases |steps|
  {
    if steps == [] then 0
    else (if Overwrites(s, steps[0], k) || Refuses(s, steps[0], k) then 1 else 0)
         + Collisions(Apply(s, steps[0]), steps[1..], k)
  }

  predicate NoDelete<K>(steps: seq<Step<K>>) {
    forall i | 0 <= i < |steps| :: !steps[i].Delete?
  }

  lemma StepSpendsMisses<K>(s: State<K>, step: Step<K>, k: K)
    requires Enabled(s, step) && !step.Delete? && k in s.table
    ensures var t := Apply(s, step);
      k in t.table && Pending(t.cpus, k) + (if Overwrites(s, step, k) || Refuses(s, step, k) then 1 else 0)
                      == Pending(s.cpus, k)
  {
    hide Pending;
    if step.Lookup? || step.Add? || step.Insert? || step.Refused? {
      CountsAfter(s.cpus, step.cpu, Apply(s, step).cpus[step.cpu], k, 0);
    }
  }

  /** Once a flow is in the map and nothing is deleted, every later overwrite or refusal uses up one
      of the misses that were pending at the start. */
  lemma {:induction false} MissesRunOut<K>(s: State<K>, steps: seq<Step<K>>, k: K)
    requires Valid(s, steps) && NoDelete(steps) && k in s.table
    ensures var t := Run(s, steps);
      k in t.table && Collisions(s, steps, k) + Pending(t.cpus, k) == Pending(s.cpus, k)
    decreases |steps|
  {
    hide Enabled, Apply, Pending;
    if steps == [] {
    } else {
      StepSpendsMisses(s, steps[0], k);
      assert NoDelete(steps[1..]);
      MissesRunOut(Apply(s, steps[0]), steps[1..], k);
    }
  }

  /** So after a flow is created its count is overwritten at most N - 1 times. */
  lemma FewOverwritesAfterCreation<K>(s: State<K>, c: nat, steps: seq<Step<K>>)
    requires Enabled(s, Insert(c)) && Valid(Apply(s, Insert(c)), steps) && NoDelete(steps)
    ensures Collisions(Apply(s, Insert(c)), steps, s.cpus[c].key) <= |s.cpus| - 1
  {
    var k, t := s.cpus[c].key, Apply(s, Insert(c));
    assert t.cpus[c] != Missed(k);
    PendingBound(t.cpus, k);
    MissesRunOut(t, steps, k);
  }

  lemma SettledStep<K>(s: State<K>, step: Step<K>, k: K)
    requires Inv(s) && Enabled(s, step) && !step.Delete? && k in s.table && Pending(s.cpus, k) == 0
    ensures var t := Apply(s, step);
      && k in t.table && t.table[k] == s.table[k] && Pending(t.cpus, k) == 0
      && Stale(t.cpus, k, s.table[k]) <= Stale(s.cpus, k, s.table[k])
      && t.handled[k] + InMap(s, k) + Stale(t.cpus, k, s.table[k])
         == s.handled[k] + InMap(t, k) + Stale(s.cpus, k, s.table[k])
  {
    hide Pending, Stale;
    PendingBound(s.cpus, k);
    StepSpendsMisses(s, step, k);
    if step.Lookup? || step.Add? || step.Insert? || step.Refused? {
      CountsAfter(s.cpus, step.cpu, Apply(s, step).cpus[step.cpu], k, s.table[k]);
    }
  }

  /** Without deletion, once a flow is in the map and no CPU holds a pending miss on it, the count
      grows by the packets handled, short of exactly one packet for each pointer to an overwritten
      element that has been used up; no such pointer is ever added. */
  lemma {:induction false} SettledCountIsExact<K>(s: State<K>, steps: seq<Step<K>>, k: K)
    requires Inv(s) && Valid(s, steps) && NoDelete(steps) && k in s.table && Pending(s.cpus, k) == 0
    ensures var t := Run(s, steps);
      && k in t.table && t.table[k] == s.table[k] && Pending(t.cpus, k) == 0
      && Stale(t.cpus, k, s.table[k]) <= Stale(s.cpus, k, s.table[k])
      && t.handled[k] + InMap(s, k) + Stale(t.cpus, k, s.table[k])
         == s.handled[k] + InMap(t, k) + Stale(s.cpus, k, s.table[k])
    decreases |steps|
  {
    hide Enabled, Apply, Pending, Stale, Inv, InMap;
    if steps == [] {
    } else {
      SettledStep(s, steps[0], k);
      StepKeepsInv(s, steps[0]);
      assert NoDelete(steps[1..]);
      SettledCountIsExact(Apply(s, steps[0]), steps[1..], k);
    }
  }

  /** No CPU has a miss pending on the flow or a pointer to an element of it that was overwritten. */
  predicate Settled<K(==)>(s: State<K>, k: K) {
    k in s.table && Pending(s.cpus, k) == 0 && Stale(s.cpus, k, s.table[k]) == 0
  }

  /** The count of `k` grew by the packets handled. */
  predicate GrewExactly<K(==)>(s: State<K>, t: State<K>, k: K) {
    t.handled[k] + InMap(s, k) == s.handled[k] + InMap(t, k)
  }

  lemma {:induction false} NobodyBusy<K>(cpus: seq<Cpu<K>>, k: K, e: nat)
    requires forall c | 0 <= c < |cpus| :: !Busy(cpus[c], k)
    ensures Pending(cpus, k) == 0 && Stale(cpus, k, e) == 0
    decreases |cpus|
  {
    if cpus == [] {
    } else {
      NobodyBusy(cpus[1..], k, e);
    }
  }

  /** The counter becomes exact: a flow in the map is settled as soon as no CPU is mid-packet on it. */
  lemma IdleIsSettled<K>(s: State<K>, k: K)
    requires k in s.table && forall c | 0 <= c < |s.cpus| :: !Busy(s.cpus[c], k)
    ensures Settled(s, k)
  {
    NobodyBusy(s.cpus, k, s.table[k]);
  }

  /** And it stays exact: without deletion a settled flow remains settled, and from then on every
      packet handled adds exactly one to its count, under every interleaving. */
  lemma ExactFromThenOn<K>(s: State<K>, steps: seq<Step<K>>, k: K)
    requires Inv(s) && Valid(s, steps) && NoDelete(steps) && Settled(s, k)
    ensures var t := Run(s, steps);
      Settled(t, k) && GrewExactly(s, t, k)
  {
    SettledCountIsExact(s, steps, k);
  }

  lemma {:induction false} PendingCpu<K>(cpus: seq<Cpu<K>>, k: K) returns (c: nat)
    requires Pending(cpus, k) > 0
    ensures c < |cpus| && cpus[c] == Missed(k)
    decreases |cpus|
  {
    if cpus[0] == Missed(k) {
      c := 0;
    } else {
      c := PendingCpu(cpus[1..], k);
      c := c + 1;
    }
  }

  lemma {:induction false} StaleCpu<K>(cpus: seq<Cpu<K>>, k: K, e: nat) returns (c: nat)
    requires Stale(cpus, k, e) > 0
    ensures c < |cpus| && PointsElsewhere(cpus[c], k, e)
    decreases |cpus|
  {
    if PointsElsewhere(cpus[0], k, e) {
      c := 0;
    } else {
      c := StaleCpu(cpus[1..], k, e);
      c := c + 1;
    }
  }

  /** In a state that is not settled, one step of a CPU makes the count miss a packet: an insert over
      the count at a pending miss, or an addition to an overwritten element. */
  lemma UnsettledLoses<K>(s: State<K>, k: K) returns (step: Step<K>)
    requires Inv(s) && k in s.table && !Settled(s, k)
    ensures Enabled(s, step) && !step.Delete? && !GrewExactly(s, Apply(s, step), k)
  {
    hide Pending, Stale;
    if Pending(s.cpus, k) > 0 {
      var c := PendingCpu(s.cpus, k);
      step := Insert(c);
    } else {
      var c := StaleCpu(s.cpus, k, s.table[k]);
      step := Add(c);
    }
  }

  lemma SingleStep<K>(step: Step<K>)
    requires !step.Delete?
    ensures NoDelete([step])
  {
  }

  /** Settled is the exact condition: every run without deletion counts every packet if and only if
      the flow is settled at its start. */
  lemma ExactIffSettled<K>(s: State<K>, k: K)
    requires Inv(s) && k in s.table
    ensures Settled(s, k) <==>
            forall steps | Valid(s, steps) && NoDelete(steps) :: GrewExactly(s, Run(s, steps), k)
  {
    hide Inv, Enabled, Apply, Settled, GrewExactly, NoDelete;
    if Settled(s, k) {
      forall steps | Valid(s, steps) && NoDelete(steps)
        ensures GrewExactly(s, Run(s, steps), k)
      {
        ExactFromThenOn(s, steps, k);
      }
    } else {
      var step := UnsettledLoses(s, k);
      Prefixed(s, step, []);
      SingleStep(step);
      assert [step] + [] == [step];
      assert Valid(s, [step]) && NoDelete([step]) && !GrewExactly(s, Run(s, [step]), k);
    }
  }

  // ---- bounds

  /** A value that was just logged is in the rows. */
  predicate LoggedIsInRows<K(==)>(s: State<K>) {
    s.reader.Logged? ==> s.reader.value <= InRows(s.rows, s.reader.key)
  }

  lemma {:induction false} LoggedStaysInRows<K>(s: State<K>, steps: seq<Step<K>>)
    requires Valid(s, steps) && LoggedIsInRows(s)
    ensures LoggedIsInRows(Run(s, steps))
    decreases |steps|
  {
    if steps == [] {
    } else {
      var step, t := steps[0], Apply(s, steps[0]);
      if step.Log? {
        RowsGrow(s.rows, t.rows[|s.rows|], s.reader.key);
      }
      LoggedStaysInRows(t, steps[1..]);
    }
  }

  /** In every run, with deletion or without, the count of a flow in the map is between 1 and the
      packets handled, and the map never exceeds its capacity. */
  lemma CountBounds<K>(parse: Frame -> Option<K>, capacity: nat, cpus: nat, steps: seq<Step<K>>, k: K)
    requires Valid(Init(parse, capacity, cpus), steps)
    ensures var t := Run(Init(parse, capacity, cpus), steps);
      && |t.table| <= capacity
      && (k in t.table ==> 1 <= InMap(t, k) <= t.handled[k])
  {
    RunConserves(Init(parse, capacity, cpus), steps, k);
    LoggedStaysInRows(Init(parse, capacity, cpus), steps);
  }

  // ---- traffic alone

  /** No step of the reader. */
  predicate Traffic<K>(steps: seq<Step<K>>) {
    forall i | 0 <= i < |steps| :: steps[i].Lookup? || steps[i].Add? || steps[i].Insert? || steps[i].Refused?
  }

  lemma {:induction false} ReaderAsleep<K>(s: State<K>, steps: seq<Step<K>>)
    requires Valid(s, steps) && Traffic(steps)
    ensures Run(s, steps).reader == s.reader && Run(s, steps).rows == s.rows
    decreases |steps|
  {
    if steps == [] {
    } else {
      assert Traffic(steps[1..]);
      ReaderAsleep(Apply(s, steps[0]), steps[1..]);
    }
  }

  /** With the reader asleep, under every interleaving of the CPUs, the count of a flow is short of
      its packets by exactly the losses, and exact if and only if no step drops one. */
  lemma CountsUnderTraffic<K>(parse: Frame -> Option<K>, capacity: nat, cpus: nat, steps: seq<Step<K>>, k: K)
    requires Valid(Init(parse, capacity, cpus), steps) && Traffic(steps)
    ensures var s := Init(parse, capacity, cpus);
      var t := Run(s, steps);
      && t.handled[k] == InMap(t, k) + Losses(s, steps, k)
      && (t.handled[k] == InMap(t, k) <==> KeepsAll(s, steps, k))
  {
    Conservation(parse, capacity, cpus, steps, k);
    ReaderAsleep(Init(parse, capacity, cpus), steps);
  }
}
