/** The per-CPU counter as a protocol: each CPU looks a source address up and then increments its own
    cell, without any atomic instruction, or inserts; an insert of an address another CPU has
    meanwhile inserted writes only the cell of the inserting CPU. */
module PerCpuCounter {
  import opened Wrappers
  import opened Bytes
  import opened Xdp
  import opened Printing
  import HashMaps

  /** The address a frame is counted under. */
  function SourceOf(f: Frame): Option<DWord> {
    if |f| < 34 || EtherType(f) != ETH_P_IP then None else Some(Be32(f, 26))
  }

  /** Which frames are counted: everything that says IPv4 and holds 20 bytes of header. */
  lemma CountedFrames(f: Frame)
    ensures SourceOf(f).Some? <==> |f| >= 34 && f[12] == 0x08 && f[13] == 0x00
  {
  }

  /** Reading inverts printing: a frame of any protocol is counted under its source address. */
  lemma SourceOfPrinted(macs: seq<Byte>, ip: Ipv4, protocol: Byte, rest: seq<Byte>)
    requires |macs| == 12 && ip.Ok()
    ensures SourceOf(PrintIp(macs, ip, protocol, rest)) == Some(ip.src)
  {
    hide PrintIp, Be16, Be32;
    PrintedIp(macs, ip, protocol, rest);
    EtherTypeBytes(PrintIp(macs, ip, protocol, rest));
  }

  /** Where a CPU is: between packets, past the lookup, or between load and store of `(*count)++`. */
  datatype Cpu =
    | Idle
    | Found(key: DWord)
    | Loaded(key: DWord, count: nat)
    | Missed(key: DWord)

  /** `done` and `refused` count packets by CPU and address. */
  datatype State = State(
    capacity: nat,
    table: map<DWord, seq<nat>>,
    cpus: seq<Cpu>,
    done: multiset<(nat, DWord)>,
    refused: multiset<(nat, DWord)>)

  datatype Step =
    | Lookup(cpu: nat, frame: Frame)
    | Load(cpu: nat)
    | Store(cpu: nat)
    | Insert(cpu: nat)

  function Init(capacity: nat, cpus: nat): State {
    State(capacity, map[], seq(cpus, i => Idle), multiset{}, multiset{})
  }

  predicate Enabled(s: State, step: Step) {
    match step
    case Lookup(c, f) => c < |s.cpus| && s.cpus[c].Idle? && SourceOf(f).Some?
    case Load(c) => c < |s.cpus| && s.cpus[c].Found?
    case Store(c) => c < |s.cpus| && s.cpus[c].Loaded?
    case Insert(c) => c < |s.cpus| && s.cpus[c].Missed?
  }

  function Cell(s: State, c: nat, k: DWord): nat {
    if k in s.table && c < |s.table[k]| then s.table[k][c] else 0
  }

  function WithCell(cells: seq<nat>, c: nat, n: nat): seq<nat> {
    if c < |cells| then cells[c := n] else cells
  }

  /** A fresh element: zero for every CPU but the one that inserts. */
  function FreshCells(cpus: nat, c: nat): seq<nat> {
    WithCell(seq(cpus, i => 0), c, 1)
  }

  function Apply(s: State, step: Step): State
    requires Enabled(s, step)
  {
    match step
    case Lookup(c, f) =>
      var k := SourceOf(f).value;
      s.(cpus := s.cpus[c := if k in s.table then Found(k) else Missed(k)])
    case Load(c) =>
      var k := s.cpus[c].key;
      s.(cpus := s.cpus[c := Loaded(k, Cell(s, c, k))])
    case Store(c) =>
      var Loaded(k, n) := s.cpus[c];
      s.(table := if k in s.table then s.table[k := WithCell(s.table[k], c, n + 1)] else s.table,
         cpus := s.cpus[c := Idle],
         done := s.done + multiset{(c, k)})
    case Insert(c) =>
      var k := s.cpus[c].key;
      var t := s.(cpus := s.cpus[c := Idle], done := s.done + multiset{(c, k)});
      if k in s.table then t.(table := s.table[k := WithCell(s.table[k], c, 1)])
      else if |s.table| < s.capacity then t.(table := s.table[k := FreshCells(|s.cpus|, c)])
      else t.(refused := s.refused + multiset{(c, k)})
  }

  /** A cell is the number of packets its CPU completed for the address and was not refused. */
  ghost predicate CellsExact(s: State) {
    forall c, k | 0 <= c < |s.cpus| :: Cell(s, c, k) + s.refused[(c, k)] == s.done[(c, k)]
  }

  /** What a CPU knows stays true whatever the others do: its cell is its own. */
  predicate CpuOk(s: State, c: nat)
    requires c < |s.cpus|
  {
    match s.cpus[c]
    case Idle => true
    case Found(k) => k in s.table
    case Loaded(k, n) => k in s.table && n == Cell(s, c, k)
    case Missed(k) => Cell(s, c, k) == 0
  }

  ghost predicate Inv(s: State) {
    && |s.table| <= s.capacity
    && (forall k | k in s.table :: |s.table[k]| == |s.cpus|)
    && (forall c | 0 <= c < |s.cpus| :: CpuOk(s, c))
    && CellsExact(s)
  }

  /** The only cell a step changes is the one of the stepping CPU for its own address. */
  lemma OnlyOwnCell(s: State, step: Step, c: nat, k: DWord)
    requires Inv(s) && Enabled(s, step) && c < |s.cpus|
    requires !(step.cpu == c && (step.Store? || step.Insert?) && s.cpus[c].key == k)
    ensures Cell(Apply(s, step), c, k) == Cell(s, c, k)
    ensures Apply(s, step).done[(c, k)] == s.done[(c, k)]
    ensures Apply(s, step).refused[(c, k)] == s.refused[(c, k)]
  {
    hide SourceOf;
  }

  lemma OwnCell(s: State, step: Step)
    requires Inv(s) && Enabled(s, step) && (step.Store? || step.Insert?)
    ensures var t, c, k := Apply(s, step), step.cpu, s.cpus[step.cpu].key;
      Cell(t, c, k) + t.refused[(c, k)] == t.done[(c, k)]
  {
    var c, k := step.cpu, s.cpus[step.cpu].key;
    assert CpuOk(s, c) && Cell(s, c, k) + s.refused[(c, k)] == s.done[(c, k)];
  }

  lemma StepKeepsCells(s: State, step: Step)
    requires Inv(s) && Enabled(s, step)
    ensures CellsExact(Apply(s, step))
  {
    hide SourceOf, Cell;
    var t := Apply(s, step);
    forall c, k | 0 <= c < |t.cpus|
      ensures Cell(t, c, k) + t.refused[(c, k)] == t.done[(c, k)]
    {
      if step.cpu == c && (step.Store? || step.Insert?) && s.cpus[c].key == k {
        OwnCell(s, step);
      } else {
        OnlyOwnCell(s, step, c, k);
      }
    }
  }

  lemma StepKeepsCpus(s: State, step: Step, c: nat)
    requires Inv(s) && Enabled(s, step) && c < |s.cpus|
    ensures CpuOk(Apply(s, step), c)
  {
    hide SourceOf;
    assert CpuOk(s, c);
    if c != step.cpu && !s.cpus[c].Idle? {
      OnlyOwnCell(s, step, c, s.cpus[c].key);
    }
  }

  lemma StepKeepsTable(s: State, step: Step)
    requires Inv(s) && Enabled(s, step)
    ensures var t := Apply(s, step);
      && |t.table| <= t.capacity == s.capacity && |t.cpus| == |s.cpus|
      && forall k | k in t.table :: |t.table[k]| == |t.cpus|
  {
    hide SourceOf, CellsExact, CpuOk;
    if step.Store? || step.Insert? {
      var t, k := Apply(s, step), s.cpus[step.cpu].key;
      if k in t.table {
        HashMaps.InsertedSize(s.table, k, t.table[k]);
      }
    }
  }

  lemma StepKeepsInv(s: State, step: Step)
    requires Inv(s) && Enabled(s, step)
    ensures Inv(Apply(s, step)) && |Apply(s, step).cpus| == |s.cpus| && Apply(s, step).capacity == s.capacity
  {
    hide CpuOk, CellsExact, Apply, Enabled;
    StepKeepsTable(s, step);
    StepKeepsCells(s, step);
    forall c | 0 <= c < |s.cpus|
      ensures CpuOk(Apply(s, step), c)
    {
      StepKeepsCpus(s, step, c);
    }
  }

  predicate Valid(s: State, steps: seq<Step>)
    decreases |steps|
  {
    steps == [] || (Enabled(s, steps[0]) && Valid(Apply(s, steps[0]), steps[1..]))
  }

  function Run(s: State, steps: seq<Step>): State
    requires Valid(s, steps)
    decreases |steps|
  {
    if steps == [] then s else Run(Apply(s, steps[0]), steps[1..])
  }

  lemma {:induction false} RunKeepsInv(s: State, steps: seq<Step>)
    requires Inv(s) && Valid(s, steps)
    ensures Inv(Run(s, steps)) && |Run(s, steps).cpus| == |s.cpus| && Run(s, steps).capacity == s.capacity
    decreases |steps|
  {
    hide Inv, Enabled, Apply;
    if steps == [] {
    } else {
      StepKeepsInv(s, steps[0]);
      RunKeepsInv(Apply(s, steps[0]), steps[1..]);
    }
  }

  // ---- every packet is completed once

  /** Frames of an address whose program run has begun on CPU `c`. */
  function Arrivals(steps: seq<Step>, c: nat, k: DWord): nat {
    if steps == [] then 0
    else (if steps[0].Lookup? && steps[0].cpu == c && SourceOf(steps[0].frame) == Some(k) then 1 else 0)
         + Arrivals(steps[1..], c, k)
  }

  /** Whether CPU `c` is mid-packet on an address. */
  function Begun(s: State, c: nat, k: DWord): nat {
    if c < |s.cpus| && !s.cpus[c].Idle? && s.cpus[c].key == k then 1 else 0
  }

  lemma StepCompletes(s: State, step: Step, c: nat, k: DWord)
    requires Enabled(s, step)
    ensures var t := Apply(s, step);
      t.done[(c, k)] + Begun(t, c, k)
      == s.done[(c, k)] + Begun(s, c, k)
         + (if step.Lookup? && step.cpu == c && SourceOf(step.frame) == Some(k) then 1 else 0)
  {
    hide SourceOf;
  }

  lemma {:induction false} RunCompletes(s: State, steps: seq<Step>, c: nat, k: DWord)
    requires Valid(s, steps)
    ensures var t := Run(s, steps);
      t.done[(c, k)] + Begun(t, c, k) == s.done[(c, k)] + Begun(s, c, k) + Arrivals(steps, c, k)
    decreases |steps|
  {
    hide Enabled, Apply, Begun, SourceOf;
    if steps == [] {
    } else {
      StepCompletes(s, steps[0], c, k);
      RunCompletes(Apply(s, steps[0]), steps[1..], c, k);
    }
  }

  // ---- totals over all CPUs

  function Sum(cells: seq<nat>): nat {
    if cells == [] then 0 else Sum(cells[..|cells| - 1]) + cells[|cells| - 1]
  }

  /** Packets counted for an address by the CPUs below `n`. */
  function Packets(m: multiset<(nat, DWord)>, n: nat, k: DWord): nat {
    if n == 0 then 0 else Packets(m, n - 1, k) + m[(n - 1, k)]
  }

  lemma {:induction false} SumOfCells(s: State, k: DWord, n: nat)
    requires Inv(s) && k in s.table && n <= |s.cpus|
    ensures Sum(s.table[k][..n]) + Packets(s.refused, n, k) == Packets(s.done, n, k)
  {
    if n == 0 {
      assert s.table[k][..0] == [];
    } else {
      SumOfCells(s, k, n - 1);
      assert s.table[k][..n][..n - 1] == s.table[k][..n - 1];
      assert Cell(s, n - 1, k) == s.table[k][n - 1];
    }
  }

  lemma {:induction false} NothingCounted(s: State, k: DWord, n: nat)
    requires Inv(s) && k !in s.table && n <= |s.cpus|
    ensures Packets(s.refused, n, k) == Packets(s.done, n, k)
  {
    if n == 0 {
    } else {
      NothingCounted(s, k, n - 1);
      assert Cell(s, n - 1, k) == 0;
    }
  }

  /** Per-CPU counting is exact under every interleaving, even when several CPUs miss and create the
      same address at once: the cells of an address sum to its completed packets minus the refused, and
      the packets a CPU completed are the frames that arrived at it but for one it is busy with. */
  lemma CountingIsExact(capacity: nat, cpus: nat, steps: seq<Step>, k: DWord)
    requires Valid(Init(capacity, cpus), steps)
    ensures var t := Run(Init(capacity, cpus), steps);
      && |t.table| <= capacity
      && (if k in t.table then Sum(t.table[k]) else 0) + Packets(t.refused, cpus, k) == Packets(t.done, cpus, k)
      && forall c | 0 <= c < cpus :: Arrivals(steps, c, k) == t.done[(c, k)] + Begun(t, c, k)
  {
    var s := Init(capacity, cpus);
    forall c | 0 <= c < cpus
      ensures Arrivals(steps, c, k) == Run(s, steps).done[(c, k)] + Begun(Run(s, steps), c, k)
    {
      RunCompletes(s, steps, c, k);
    }
    assert Inv(s);
    RunKeepsInv(s, steps);
    var t := Run(s, steps);
    if k in t.table {
      SumOfCells(t, k, cpus);
      assert t.table[k][..cpus] == t.table[k];
    } else {
      NothingCounted(t, k, cpus);
    }
  }

  /** A packet is refused exactly when it would add an address to a full map. */
  lemma RefusedOnlyWhenFull(s: State, step: Step)
    requires Inv(s) && Enabled(s, step)
    ensures Apply(s, step).refused != s.refused <==>
            step.Insert? && |s.table| == s.capacity && s.cpus[step.cpu].key !in s.table
  {
    if step.Insert? {
      var c := step.cpu;
      assert (s.refused + multiset{(c, s.cpus[c].key)})[(c, s.cpus[c].key)] == s.refused[(c, s.cpus[c].key)] + 1;
    }
  }
}
