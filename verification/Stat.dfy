/**
 * library/stat.c: the tick history of the cpus, made safe for deltas, and its folding
 * into NUMA nodes.
 *
 * A stat_jifs is what the C code also takes it for: an array of 15 counters. Counters are
 * assumed not to wrap.
 */
module Stat {

  const NEWOLD_INCR: nat := 64
  const NODE_INVALID: int := -22222
  const SUMMARY_ID: int := -11111

  // The fields of stat_jifs, in order; 8 and 9, guest and guest nice, enter no total.
  const USER: nat := 0
  const NICE: nat := 1
  const SYSTEM: nat := 2
  const IDLE: nat := 3
  const IOWAIT: nat := 4
  const IRQ: nat := 5
  const SIRQ: nat := 6
  const STOLEN: nat := 7
  const XUSR: nat := 10
  const XSYS: nat := 11
  const XIDL: nat := 12
  const XBSY: nat := 13
  const XTOT: nat := 14
  const FIELDS: nat := 15

  /** stat_jifs */
  type Jifs = j: seq<nat> | |j| == 15 witness seq(15, _ => 0)

  /** hist_tic, without the core it belongs to. */
  datatype HistTic = HistTic(id: int, numaNode: int, count: nat, now: Jifs, was: Jifs)

  /** The counters sscanf finds on a line: there is room for ten. */
  type Vals = v: seq<nat> | |v| <= 10 witness []

  /** A line of /proc/stat: a cpu's id and the counters behind it, or anything else. */
  datatype Line = Cpu(id: int, vals: Vals) | Other

  /** Eight conversions, the id being one of them. */
  predicate IsCpu(l: Line) {
    l.Cpu? && 1 + |l.vals| >= 8
  }

  // ----- What the derived fields mean ------------------------------------------------------

  ghost predicate Consistent(j: Jifs) {
    && j[XUSR] == j[USER] + j[NICE]
    && j[XSYS] == j[SYSTEM] + j[IRQ] + j[SIRQ]
    && j[XIDL] == j[IDLE] + j[IOWAIT]
    && j[XTOT] == j[XUSR] + j[XSYS] + j[XIDL] + j[STOLEN]
    && j[XBSY] + j[XIDL] == j[XTOT]
  }

  /** No field runs backwards. */
  ghost predicate Monotone(t: HistTic) {
    forall f :: 0 <= f < FIELDS ==> t.was[f] <= t.now[f]
  }

  /** The fields sscanf fills; those a short line leaves out keep their value. */
  function Scanned(j: Jifs, vals: Vals): (r: Jifs)
    ensures forall f :: 0 <= f < |vals| ==> r[f] == vals[f]
    ensures forall f :: |vals| <= f < FIELDS ==> r[f] == j[f]
  {
    vals + j[|vals|..]
  }

  /** `now` is what the line says, completed by the derived fields. */
  ghost predicate Reads(now: Jifs, before: Jifs, vals: Vals) {
    && Consistent(now)
    && (forall f :: 0 <= f < |vals| ==> now[f] == vals[f])
    && (forall f :: |vals| <= f < 10 ==> now[f] == before[f])
  }

  /** The history after a read: the previous counters, unless some field would run backwards. */
  ghost predicate Remembers(t: HistTic, before: Jifs) {
    if exists f :: 0 <= f < FIELDS && t.now[f] < before[f] then t.was == t.now else t.was == before
  }

  /** stat_derive_unique */
  method DeriveUnique(t0: HistTic) returns (t: HistTic)
    ensures Consistent(t.now) && (forall f :: 0 <= f < 10 ==> t.now[f] == t0.now[f])
    ensures Remembers(t, t0.was) && Monotone(t)
    ensures t.id == t0.id && t.numaNode == t0.numaNode && t.count == t0.count
  {
    var j := t0.now;
    j := j[XUSR := j[USER] + j[NICE]];
    j := j[XSYS := j[SYSTEM] + j[IRQ] + j[SIRQ]];
    j := j[XIDL := j[IDLE] + j[IOWAIT]];
    j := j[XTOT := j[XUSR] + j[XSYS] + j[XIDL] + j[STOLEN]];
    j := j[XBSY := j[XTOT] - j[XIDL]];
    t := t0.(now := j);
    // don't distort results when cpus are brought back online
    var i := 0;
    while i < FIELDS
      invariant 0 <= i <= FIELDS && t == t0.(now := j)
      invariant forall f :: 0 <= f < i ==> j[f] >= t0.was[f]
    {
      if j[i] < t0.was[i] {
        t := t.(was := j);
        return;
      }
      i := i + 1;
    }
  }

  // ----- Sums over cpus ------------------------------------------------------------------------

  /** The sum of `w` over the cpus of node `j`, `nodeOf` being libnuma's answer for a cpu id. */
  function NodeSum(cpus: seq<HistTic>, nodeOf: int -> int, j: int, w: HistTic -> int): int {
    if cpus == [] then 0
    else
      var n := |cpus| - 1;
      NodeSum(cpus[..n], nodeOf, j, w) + if nodeOf(cpus[n].id) == j then w(cpus[n]) else 0
  }

  /** The sum of `w` over the cpus that have a node at all. */
  function AssignedSum(cpus: seq<HistTic>, nodeOf: int -> int, w: HistTic -> int): int {
    if cpus == [] then 0
    else
      var n := |cpus| - 1;
      AssignedSum(cpus[..n], nodeOf, w) + if nodeOf(cpus[n].id) > -1 then w(cpus[n]) else 0
  }

  /** The sum of the node sums of nodes 0 up to `total`. */
  function AllNodes(cpus: seq<HistTic>, nodeOf: int -> int, total: nat, w: HistTic -> int): int {
    if total == 0 then 0
    else AllNodes(cpus, nodeOf, total - 1, w) + NodeSum(cpus, nodeOf, total - 1, w)
  }

  lemma {:induction false} AllNodesOneMore(cpus: seq<HistTic>, nodeOf: int -> int, total: nat, w: HistTic -> int)
    requires cpus != []
    ensures var n := |cpus| - 1;
            AllNodes(cpus, nodeOf, total, w) == AllNodes(cpus[..n], nodeOf, total, w)
              + if 0 <= nodeOf(cpus[n].id) < total then w(cpus[n]) else 0
  {
    if total > 0 {
      AllNodesOneMore(cpus, nodeOf, total - 1, w);
    }
  }

  lemma {:induction false} NoCpus(nodeOf: int -> int, total: nat, w: HistTic -> int)
    ensures AllNodes([], nodeOf, total, w) == 0
  {
    if total > 0 {
      NoCpus(nodeOf, total - 1, w);
    }
  }

  /**
   * Folding neither loses nor invents anything: whatever is summed, the sum over all nodes
   * is the sum over all cpus that have a node.
   */
  lemma {:induction false} FoldingConserves(cpus: seq<HistTic>, nodeOf: int -> int, total: nat, w: HistTic -> int)
    requires forall i :: 0 <= i < |cpus| ==> nodeOf(cpus[i].id) < total
    ensures AllNodes(cpus, nodeOf, total, w) == AssignedSum(cpus, nodeOf, w)
    decreases |cpus|
  {
    if cpus == [] {
      NoCpus(nodeOf, total, w);
    } else {
      AllNodesOneMore(cpus, nodeOf, total, w);
      FoldingConserves(cpus[..|cpus| - 1], nodeOf, total, w);
    }
  }

  /** A comparison that holds for every cpu holds for a node's sums. */
  lemma {:induction false} NodeSumOrder(cpus: seq<HistTic>, nodeOf: int -> int, j: int, v: HistTic -> int, w: HistTic -> int)
    requires forall i :: 0 <= i < |cpus| ==> v(cpus[i]) <= w(cpus[i])
    ensures NodeSum(cpus, nodeOf, j, v) <= NodeSum(cpus, nodeOf, j, w)
    decreases |cpus|
  {
    if cpus != [] {
      NodeSumOrder(cpus[..|cpus| - 1], nodeOf, j, v, w);
    }
  }

  /** A linear relation between fields that holds for every cpu holds for a node's sums. */
  lemma {:induction false} NodeSumAdds(cpus: seq<HistTic>, nodeOf: int -> int, j: int,
                                       u: HistTic -> int, v: HistTic -> int, w: HistTic -> int)
    requires forall i :: 0 <= i < |cpus| ==> u(cpus[i]) == v(cpus[i]) + w(cpus[i])
    ensures NodeSum(cpus, nodeOf, j, u) == NodeSum(cpus, nodeOf, j, v) + NodeSum(cpus, nodeOf, j, w)
    decreases |cpus|
  {
    if cpus != [] {
      NodeSumAdds(cpus[..|cpus| - 1], nodeOf, j, u, v, w);
    }
  }

  function Now(f: nat): HistTic -> int
    requires f < FIELDS
  {
    (t: HistTic) => t.now[f]
  }

  function Was(f: nat): HistTic -> int
    requires f < FIELDS
  {
    (t: HistTic) => t.was[f]
  }

  function One(): HistTic -> int {
    (t: HistTic) => 1
  }

  /** What one node should hold after folding. */
  ghost predicate Folded(node: HistTic, cpus: seq<HistTic>, nodeOf: int -> int, j: int) {
    && node.id == j && node.count == NodeSum(cpus, nodeOf, j, One())
    && node.numaNode == (if node.count > 0 then j else NODE_INVALID)
    && (forall f :: 0 <= f < FIELDS ==>
          && node.now[f] == NodeSum(cpus, nodeOf, j, Now(f))
          && node.was[f] == NodeSum(cpus, nodeOf, j, Was(f)))
  }

  function SumOf(nodes: seq<HistTic>, w: HistTic -> int): int {
    if nodes == [] then 0 else SumOf(nodes[..|nodes| - 1], w) + w(nodes[|nodes| - 1])
  }

  /**
   * After folding, every field and the number of cpus add up over the nodes to what they
   * are over the cpus that have a node, for this read and for the one before.
   */
  lemma FoldedTotals(nodes: seq<HistTic>, cpus: seq<HistTic>, nodeOf: int -> int, f: nat)
    requires f < FIELDS && forall j :: 0 <= j < |nodes| ==> Folded(nodes[j], cpus, nodeOf, j)
    requires forall i :: 0 <= i < |cpus| ==> nodeOf(cpus[i].id) < |nodes|
    ensures SumOf(nodes, Now(f)) == AssignedSum(cpus, nodeOf, Now(f))
    ensures SumOf(nodes, Was(f)) == AssignedSum(cpus, nodeOf, Was(f))
    ensures SumOf(nodes, (t: HistTic) => t.count) == AssignedSum(cpus, nodeOf, One())
  {
    var count := (t: HistTic) => t.count;
    SumOfNodes(nodes, cpus, nodeOf, Now(f), Now(f));
    SumOfNodes(nodes, cpus, nodeOf, Was(f), Was(f));
    SumOfNodes(nodes, cpus, nodeOf, count, One());
    FoldingConserves(cpus, nodeOf, |nodes|, Now(f));
    FoldingConserves(cpus, nodeOf, |nodes|, Was(f));
    FoldingConserves(cpus, nodeOf, |nodes|, One());
  }

  lemma {:induction false} SumOfNodes(nodes: seq<HistTic>, cpus: seq<HistTic>, nodeOf: int -> int,
                                      v: HistTic -> int, w: HistTic -> int)
    requires forall j :: 0 <= j < |nodes| ==> v(nodes[j]) == NodeSum(cpus, nodeOf, j, w)
    ensures SumOf(nodes, v) == AllNodes(cpus, nodeOf, |nodes|, w)
    decreases |nodes|
  {
    if nodes != [] {
      SumOfNodes(nodes[..|nodes| - 1], cpus, nodeOf, v, w);
    }
  }

  /** A node's deltas are never negative, and its totals still add up, when those of its cpus do. */
  lemma NodeIsSound(node: HistTic, cpus: seq<HistTic>, nodeOf: int -> int, j: int)
    requires Folded(node, cpus, nodeOf, j)
    requires forall i :: 0 <= i < |cpus| ==> Monotone(cpus[i]) && Consistent(cpus[i].now)
    ensures Monotone(node) && Consistent(node.now)
  {
    forall f | 0 <= f < FIELDS
      ensures node.was[f] <= node.now[f]
    {
      NodeSumOrder(cpus, nodeOf, j, Was(f), Now(f));
    }
    var irqs := (t: HistTic) => t.now[IRQ] + t.now[SIRQ];
    var busy := (t: HistTic) => t.now[XUSR] + t.now[XSYS];
    var most := (t: HistTic) => t.now[XUSR] + t.now[XSYS] + t.now[XIDL];
    NodeSumAdds(cpus, nodeOf, j, Now(XUSR), Now(USER), Now(NICE));
    NodeSumAdds(cpus, nodeOf, j, irqs, Now(IRQ), Now(SIRQ));
    NodeSumAdds(cpus, nodeOf, j, Now(XSYS), Now(SYSTEM), irqs);
    NodeSumAdds(cpus, nodeOf, j, Now(XIDL), Now(IDLE), Now(IOWAIT));
    NodeSumAdds(cpus, nodeOf, j, busy, Now(XUSR), Now(XSYS));
    NodeSumAdds(cpus, nodeOf, j, most, busy, Now(XIDL));
    NodeSumAdds(cpus, nodeOf, j, Now(XTOT), most, Now(STOLEN));
    NodeSumAdds(cpus, nodeOf, j, Now(XTOT), Now(XBSY), Now(XIDL));
  }

  /** What the nodes are to their cpus. */
  ghost predicate NodesAddUp(nodes: seq<HistTic>, cpus: seq<HistTic>, nodeOf: int -> int) {
    && (forall j :: 0 <= j < |nodes| ==> nodes[j].id == j && Monotone(nodes[j]) && Consistent(nodes[j].now))
    && SumOf(nodes, (t: HistTic) => t.count) == AssignedSum(cpus, nodeOf, One())
    && forall f :: 0 <= f < FIELDS ==>
         && SumOf(nodes, Now(f)) == AssignedSum(cpus, nodeOf, Now(f))
         && SumOf(nodes, Was(f)) == AssignedSum(cpus, nodeOf, Was(f))
  }

  lemma FoldedAddUp(nodes: seq<HistTic>, cpus: seq<HistTic>, nodeOf: int -> int)
    requires forall j :: 0 <= j < |nodes| ==> Folded(nodes[j], cpus, nodeOf, j)
    requires forall i :: 0 <= i < |cpus| ==> nodeOf(cpus[i].id) < |nodes|
    requires forall i :: 0 <= i < |cpus| ==> Monotone(cpus[i]) && Consistent(cpus[i].now)
    ensures NodesAddUp(nodes, cpus, nodeOf)
  {
    forall j | 0 <= j < |nodes|
      ensures nodes[j].id == j && Monotone(nodes[j]) && Consistent(nodes[j].now)
    {
      NodeIsSound(nodes[j], cpus, nodeOf, j);
    }
    hide Folded, Monotone, Consistent, SumOf, AssignedSum;
    FoldedTotals(nodes, cpus, nodeOf, USER);
    forall f | 0 <= f < FIELDS
      ensures SumOf(nodes, Now(f)) == AssignedSum(cpus, nodeOf, Now(f))
      ensures SumOf(nodes, Was(f)) == AssignedSum(cpus, nodeOf, Was(f))
    {
      FoldedTotals(nodes, cpus, nodeOf, f);
    }
  }

  // ----- The context ------------------------------------------------------------------------------

  function Plus(a: Jifs, b: Jifs): (r: Jifs)
    ensures forall f :: 0 <= f < FIELDS ==> r[f] == a[f] + b[f]
  {
    seq(FIELDS, f requires 0 <= f < FIELDS => a[f] + b[f])
  }

  const ZERO: Jifs := seq(15, _ => 0)

  /** How many cpu lines come first. */
  function CpuLines(lines: seq<Line>): (n: nat)
    ensures n <= |lines| && (forall i :: 0 <= i < n ==> IsCpu(lines[i]))
    ensures n < |lines| ==> !IsCpu(lines[n])
  {
    if lines == [] || !IsCpu(lines[0]) then 0 else 1 + CpuLines(lines[1..])
  }

  /** Slot `t` after a read of line `l`, given what the slot held before. */
  ghost predicate SlotRead(t: HistTic, before: HistTic, l: Line) {
    && IsCpu(l) && t.id == l.id && t.count == 1 && t.numaNode == NODE_INVALID
    && Reads(t.now, before.now, l.vals) && Remembers(t, before.now) && Monotone(t)
  }

  /** What can be said of a slot whose past is not known. */
  ghost predicate SlotKnown(t: HistTic, l: Line) {
    && IsCpu(l) && t.id == l.id && t.count == 1 && t.numaNode == NODE_INVALID
    && Consistent(t.now) && Monotone(t)
    && forall f :: 0 <= f < |l.vals| ==> t.now[f] == l.vals[f]
  }

  /** A slot touched for a line that turns out not to be a cpu's: what sscanf found stays in it. */
  function Touched(t: HistTic, l: Line): HistTic {
    var t' := t.(was := t.now, numaNode := NODE_INVALID, count := 1);
    if l.Cpu? then t'.(id := l.id, now := Scanned(t'.now, l.vals)) else t'
  }

  /** A cpu after its node was looked up. */
  function Placed(cpu: HistTic, nodeOf: int -> int): HistTic {
    if nodeOf(cpu.id) > -1 then cpu.(numaNode := nodeOf(cpu.id)) else cpu
  }

  /** A node after a cpu joined it. */
  function Joined(node: HistTic, cpu: HistTic, j: int): HistTic {
    node.(now := Plus(node.now, cpu.now), was := Plus(node.was, cpu.was), numaNode := j, count := node.count + 1)
  }

  lemma NothingFolded(nodeOf: int -> int, total: nat)
    ensures forall j :: 0 <= j < total ==> Folded(HistTic(j, NODE_INVALID, 0, ZERO, ZERO), [], nodeOf, j)
  {
  }

  lemma FoldedNext(node: HistTic, cpus: seq<HistTic>, cpu: HistTic, nodeOf: int -> int, j: int)
    requires Folded(node, cpus, nodeOf, j)
    ensures Folded(if nodeOf(cpu.id) == j then Joined(node, cpu, j) else node, cpus + [cpu], nodeOf, j)
  {
    assert (cpus + [cpu])[..|cpus|] == cpus;
  }

  class StatInfo {
    var summary: HistTic
    var tics: array<HistTic>
    var nInuse: nat
    var nodes: array<HistTic>
    var nodesInuse: nat

    ghost predicate Valid()
      reads this
    {
      nInuse <= tics.Length && nodesInuse <= nodes.Length && tics != nodes && tics.Length > 0
    }

    /** procps_stat_new and the first calloc of stat_read_failed. */
    constructor ()
      ensures Valid() && fresh(tics) && fresh(nodes) && nInuse == 0 && nodes.Length == 0
    {
      summary := HistTic(0, 0, 0, ZERO, ZERO);
      tics := new HistTic[NEWOLD_INCR](_ => HistTic(0, 0, 0, ZERO, ZERO));
      nodes := new HistTic[0];
      nInuse, nodesInuse := 0, 0;
    }

    /** realloc: the new slots hold anything. */
    method Grow()
      requires Valid()
      modifies this`tics
      ensures Valid() && fresh(tics) && tics.Length == old(tics.Length) + NEWOLD_INCR
      ensures tics[..old(tics.Length)] == old(tics[..])
    {
      var bigger := new HistTic[tics.Length + NEWOLD_INCR];
      forall i | 0 <= i < tics.Length {
        bigger[i] := tics[i];
      }
      tics := bigger;
    }

    /** The body of the cpu loop, for a cpu line. */
    method ReadSlot(i: nat, l: Line)
      requires i < tics.Length && IsCpu(l)
      modifies tics
      ensures SlotRead(tics[i], old(tics[i]), l)
      ensures forall k :: 0 <= k < tics.Length && k != i ==> tics[k] == old(tics[k])
    {
      var t := tics[i];
      t := t.(was := t.now);
      t := t.(numaNode := NODE_INVALID, count := 1);
      t := t.(id := l.id, now := Scanned(t.now, l.vals));
      t := DeriveUnique(t);
      tics[i] := t;
    }

    /**
     * The cpu lines of stat_read_failed, the summary line first. The other lines follow,
     * and there is at least one.
     */
    method ReadCpus(first: Vals, lines: seq<Line>) returns (failed: bool)
      requires Valid() && CpuLines(lines) < |lines|
      modifies this`summary, this`tics, this`nInuse, tics
      ensures Valid() && (tics == old(tics) || fresh(tics))
      ensures failed <==> |first| < 8
      ensures failed ==> nInuse == old(nInuse) && tics == old(tics) && tics[..] == old(tics[..])
                         && summary.now == Scanned(old(summary.now), first) && summary.was == old(summary.now)
      ensures !failed ==>
                && Reads(summary.now, old(summary.now), first) && Remembers(summary, old(summary.now))
                && Monotone(summary) && summary.count == nInuse
                && nInuse == CpuLines(lines) < tics.Length
                && (forall k :: 0 <= k < nInuse ==> lines[k].Cpu? && |lines[k].vals| >= 7)
                && !(lines[nInuse].Cpu? && |lines[nInuse].vals| >= 7)
                && SlotsDone(old(tics[..]), tics[..], lines, nInuse)
    {
      summary := summary.(was := summary.now);
      summary := summary.(id := SUMMARY_ID, numaNode := NODE_INVALID);
      summary := summary.(now := Scanned(summary.now, first));
      if 8 > |first| {
        return true;
      }
      summary := DeriveUnique(summary);
      var i := ReadSlots(lines);
      nInuse := i;
      summary := summary.(count := i);
      return false;
    }

    /** The loop with its goto: `i` lines were cpus, and the array has room for one more. */
    method ReadSlots(lines: seq<Line>) returns (i: nat)
      requires Valid() && CpuLines(lines) < |lines|
      modifies this`tics, tics
      ensures Valid() && (tics == old(tics) || fresh(tics))
      ensures i == CpuLines(lines) < tics.Length && SlotsDone(old(tics[..]), tics[..], lines, i)
    {
      i := 0;
      SlotsReadStart(tics[..], lines);
      hide SlotRead, SlotKnown, SlotsRead, SlotsDone, CpuLines;
      while true
        invariant Valid() && i <= CpuLines(lines) && i < tics.Length
        invariant tics == old(tics) || fresh(tics)
        invariant SlotsRead(old(tics[..]), tics[..], lines, i)
        decreases CpuLines(lines) - i
      {
        CpuLinesAre(lines, i);
        if !IsCpu(lines[i]) {
          TouchSlot(i, old(tics[..]), lines);
          return;
        }
        ReadNext(i, old(tics[..]), lines);
        i := i + 1;
      }
    }

    /** One turn for a cpu line. */
    method ReadNext(i: nat, ghost start: seq<HistTic>, lines: seq<Line>)
      requires Valid() && i < tics.Length && i < |lines| && IsCpu(lines[i]) && SlotsRead(start, tics[..], lines, i)
      modifies this`tics, tics
      ensures Valid() && (tics == old(tics) || fresh(tics))
      ensures i + 1 < tics.Length && SlotsRead(start, tics[..], lines, i + 1)
    {
      hide SlotRead, SlotsRead;
      ghost var before := tics[..];
      ReadSlot(i, lines[i]);
      SlotsReadNext(start, before, tics[..], lines, i);
      if i + 1 == tics.Length {
        ghost var full := tics[..];
        Grow();
        SlotsReadGrown(start, full, tics[..], lines, i + 1);
      }
    }

    /** One turn for any other line. */
    method TouchSlot(i: nat, ghost start: seq<HistTic>, lines: seq<Line>)
      requires i < tics.Length && i < |lines| && SlotsRead(start, tics[..], lines, i)
      modifies tics
      ensures SlotsDone(start, tics[..], lines, i)
    {
      hide SlotsRead, SlotsDone;
      ghost var before := tics[..];
      tics[i] := tics[i].(was := tics[i].now, numaNode := NODE_INVALID, count := 1);
      match lines[i] {
        case Cpu(id, vals) => tics[i] := tics[i].(id := id, now := Scanned(tics[i].now, vals));
        case Other =>
      }
      SlotsReadTouched(start, before, tics[..], lines, i);
    }

    /** The allocation, the memset and the first loop of stat_make_numa_hist. */
    method ClearNodes(total: nat)
      requires Valid()
      modifies this`nodes, nodes
      ensures Valid() && (nodes == old(nodes) || fresh(nodes)) && total < nodes.Length
      ensures forall j :: 0 <= j < total ==> nodes[j] == HistTic(j, NODE_INVALID, 0, ZERO, ZERO)
    {
      if nodes.Length == 0 || total >= nodes.Length {
        nodes := new HistTic[total + NEWOLD_INCR];
      }
      forall i | 0 <= i < nodes.Length {
        nodes[i] := HistTic(0, 0, 0, ZERO, ZERO);
      }
      forall i | 0 <= i < total {
        nodes[i] := HistTic(i, NODE_INVALID, 0, ZERO, ZERO);
      }
    }

    /** One turn of the second loop: add a cpu to its node. */
    method AddToNode(i: nat, node: nat)
      requires i < tics.Length && node < nodes.Length && tics != nodes
      modifies nodes, tics
      ensures nodes[node] == Joined(old(nodes[node]), old(tics[i]), node)
      ensures forall j :: 0 <= j < nodes.Length && j != node ==> nodes[j] == old(nodes[j])
      ensures tics[i] == old(tics[i]).(numaNode := node)
      ensures forall k :: 0 <= k < tics.Length && k != i ==> tics[k] == old(tics[k])
    {
      var cpu, nod := tics[i], nodes[node];
      nod := nod.(now := Plus(nod.now, cpu.now), was := Plus(nod.was, cpu.was));
      tics[i] := cpu.(numaNode := node);
      nodes[node] := nod.(numaNode := node, count := nod.count + 1);
    }

    /** stat_make_numa_hist, with libnuma's two answers as parameters. */
    method MakeNumaHist(maxNode: int, nodeOf: int -> int) returns (rc: nat)
      requires Valid() && maxNode >= -1
      requires forall i :: 0 <= i < nInuse ==> nodeOf(tics[i].id) <= maxNode
      modifies this`nodes, this`nodesInuse, nodes, tics
      ensures Valid() && rc == maxNode + 1
      ensures rc > 0 ==> nodesInuse == rc < nodes.Length
      ensures forall j :: 0 <= j < rc ==> Folded(nodes[j], old(tics[..nInuse]), nodeOf, j)
      ensures forall k :: 0 <= k < tics.Length ==>
                tics[k] == if rc > 0 && k < nInuse then Placed(old(tics[k]), nodeOf) else old(tics[k])
    {
      rc := maxNode + 1;
      if rc == 0 {
        return;
      }
      ghost var all := tics[..];
      ghost var cpus := tics[..nInuse];
      ClearNodes(rc);
      var i := 0;
      NothingFolded(nodeOf, rc);
      assert cpus[..0] == [];
      while i < nInuse
        invariant 0 <= i <= nInuse && Valid() && rc < nodes.Length && (nodes == old(nodes) || fresh(nodes))
        invariant forall j :: 0 <= j < rc ==> Folded(nodes[j], cpus[..i], nodeOf, j)
        invariant forall k :: 0 <= k < tics.Length ==> tics[k] == if k < i then Placed(all[k], nodeOf) else all[k]
      {
        hide Folded;
        var node := nodeOf(tics[i].id);
        assert tics[i] == all[i] == cpus[i] == old(tics[i]);
        assert cpus[..i + 1] == cpus[..i] + [cpus[i]];
        ghost var before := nodes[..];
        if -1 < node {
          AddToNode(i, node);
        }
        forall j | 0 <= j < rc
          ensures Folded(nodes[j], cpus[..i + 1], nodeOf, j)
        {
          assert Folded(before[j], cpus[..i], nodeOf, j);
          FoldedNext(before[j], cpus[..i], cpus[i], nodeOf, j);
        }
        i := i + 1;
      }
      assert cpus[..i] == cpus;
      nodesInuse := rc;
    }

    /**
     * A read and then the folding, end to end: every node's deltas are non-negative and its
     * totals add up, and each field, of this read and of the one before, adds up over the
     * nodes to what it is over the cpus that have one. `cpus` are the slots as they were read.
     */
    method ReadAndFold(first: Vals, lines: seq<Line>, maxNode: nat, nodeOf: int -> int)
      returns (failed: bool, ghost cpus: seq<HistTic>)
      requires Valid() && CpuLines(lines) < |lines|
      requires forall i :: 0 <= i < CpuLines(lines) ==> nodeOf(lines[i].id) <= maxNode
      modifies this`summary, this`tics, this`nInuse, this`nodes, this`nodesInuse, tics, nodes
      ensures Valid() && (failed <==> |first| < 8)
      ensures !failed ==>
                && nInuse == |cpus| == CpuLines(lines) && nodesInuse == maxNode + 1 <= nodes.Length
                && (forall k :: 0 <= k < nInuse ==> SlotKnown(cpus[k], lines[k]) && tics[k] == Placed(cpus[k], nodeOf))
                && NodesAddUp(nodes[..nodesInuse], cpus, nodeOf)
    {
      cpus := [];
      failed := ReadCpus(first, lines);
      if failed {
        return;
      }
      cpus := tics[..nInuse];
      SlotsAreKnown(old(tics[..]), tics[..], lines, nInuse);
      hide *;
      var rc := MakeNumaHist(maxNode, nodeOf);
      FoldedAddUp(nodes[..nodesInuse], cpus, nodeOf);
    }
  }

  /** The first `i` slots were read, each from what it held before the read where that is known. */
  ghost predicate FirstRead(start: seq<HistTic>, tics: seq<HistTic>, lines: seq<Line>, i: nat) {
    && i <= |tics| && |start| <= |tics| && i <= |lines|
    && (forall k :: 0 <= k < i ==> SlotKnown(tics[k], lines[k]))
    && (forall k :: 0 <= k < i && k < |start| ==> SlotRead(tics[k], start[k], lines[k]))
  }

  /** While there are cpu lines: the other slots are as they were. */
  ghost predicate SlotsRead(start: seq<HistTic>, tics: seq<HistTic>, lines: seq<Line>, i: nat) {
    FirstRead(start, tics, lines, i) && forall k :: i <= k < |start| ==> tics[k] == start[k]
  }

  /** At the end: the next slot was touched for the line behind the cpu lines. */
  ghost predicate SlotsDone(start: seq<HistTic>, tics: seq<HistTic>, lines: seq<Line>, i: nat) {
    && FirstRead(start, tics, lines, i) && i < |lines|
    && (i < |start| ==> tics[i] == Touched(start[i], lines[i]))
    && (forall k :: i < k < |start| ==> tics[k] == start[k])
  }

  /** What a slot keeps over a read that has no line for it: all it held, but for what a short cpu line overwrote. */
  function HeldOver(t: HistTic, k: nat, lines: seq<Line>, n: nat): Jifs
    requires n < |lines|
  {
    if k == n && lines[n].Cpu? then Scanned(t.now, lines[n].vals) else t.now
  }

  /**
   * Three reads, the second of them without cpu number `k`: when it comes back, it is compared
   * with the counters it last held, unless one of them would run backwards.
   */
  lemma ReturningCpu(start: seq<HistTic>, t1: seq<HistTic>, t2: seq<HistTic>, t3: seq<HistTic>,
                     lines1: seq<Line>, lines2: seq<Line>, lines3: seq<Line>, n1: nat, n2: nat, n3: nat, k: nat)
    requires SlotsDone(start, t1, lines1, n1) && SlotsDone(t1, t2, lines2, n2) && SlotsDone(t2, t3, lines3, n3)
    requires n2 <= k < n1 && k < n3
    ensures var held, t := HeldOver(t1[k], k, lines2, n2), t3[k];
            && (forall f :: 0 <= f < |lines3[k].vals| ==> t.now[f] == lines3[k].vals[f])
            && t.was == if forall f :: 0 <= f < FIELDS ==> held[f] <= t.now[f] then held else t.now
  {
    assert SlotRead(t3[k], t2[k], lines3[k]) && SlotKnown(t3[k], lines3[k]);
  }

  lemma SlotsAreKnown(start: seq<HistTic>, tics: seq<HistTic>, lines: seq<Line>, i: nat)
    requires SlotsDone(start, tics, lines, i)
    ensures i <= |tics| && i <= |lines|
    ensures forall k :: 0 <= k < i ==> SlotKnown(tics[..i][k], lines[k])
    ensures forall k :: 0 <= k < i ==>
              tics[..i][k].id == lines[k].id && Monotone(tics[..i][k]) && Consistent(tics[..i][k].now)
  {
  }

  lemma CpuLinesAre(lines: seq<Line>, i: nat)
    requires i <= CpuLines(lines) && i < |lines|
    ensures IsCpu(lines[i]) <==> i < CpuLines(lines)
  {
  }

  lemma SlotsReadStart(start: seq<HistTic>, lines: seq<Line>)
    ensures SlotsRead(start, start, lines, 0)
  {
  }

  lemma SlotsReadTouched(start: seq<HistTic>, before: seq<HistTic>, tics: seq<HistTic>, lines: seq<Line>, i: nat)
    requires SlotsRead(start, before, lines, i) && i < |before| == |tics| && i < |lines|
    requires tics[i] == Touched(before[i], lines[i])
    requires forall k :: 0 <= k < |tics| && k != i ==> tics[k] == before[k]
    ensures SlotsDone(start, tics, lines, i)
  {
    hide SlotRead, SlotKnown, Touched;
  }

  lemma SlotsReadNext(start: seq<HistTic>, before: seq<HistTic>, tics: seq<HistTic>, lines: seq<Line>, i: nat)
    requires SlotsRead(start, before, lines, i) && i < |before| == |tics| && i < |lines|
    requires SlotRead(tics[i], before[i], lines[i])
    requires forall k :: 0 <= k < |tics| && k != i ==> tics[k] == before[k]
    ensures SlotsRead(start, tics, lines, i + 1)
  {
    assert SlotKnown(tics[i], lines[i]);
    if i < |start| {
      assert before[i] == start[i];
      assert SlotRead(tics[i], start[i], lines[i]);
    }
    hide SlotRead, SlotKnown;
  }

  lemma SlotsReadGrown(start: seq<HistTic>, before: seq<HistTic>, tics: seq<HistTic>, lines: seq<Line>, i: nat)
    requires SlotsRead(start, before, lines, i) && i == |before| <= |tics| && tics[..i] == before
    ensures SlotsRead(start, tics, lines, i)
  {
    assert forall k :: 0 <= k < i ==> tics[k] == tics[..i][k] == before[k];
  }
}
