/**
 * library/pids.c, history support: two record arrays and two hash tables that change
 * roles at every fetch, with collisions chained by array index.
 *
 * The reference is a frame: the plain sequence of records put during one fetch, in which
 * the last record of a pid counts.
 */
module PidsHistory {

  const HHASH_SIZE: nat := 4096
  const NEWOLD_INIT: nat := 1024
  const NEWOLD_GROW: nat := 128

  const TWO32: int := 0x1_0000_0000
  const TWO64: int := 0x1_0000_0000_0000_0000

  /** The proc_t fields the history code touches, plus whatever else a result may show. */
  datatype Proc = Proc(tid: int, state: char, utime: int, stime: int, majFlt: int, minFlt: int,
                       pcpu: int, majDelta: int, minDelta: int, rest: seq<int>)

  /** HST_t: one record and its chain link. */
  datatype Hst = Hst(tics: int, maj: int, min: int, pid: int, lnk: int)

  /** A record without its link. */
  datatype Rec = Rec(pid: int, tics: int, maj: int, min: int)

  /** Storing an unsigned 64-bit value in an int. */
  function ToInt32(x: int): (r: int)
    ensures -0x8000_0000 <= r < 0x8000_0000 && (r - x) % TWO32 == 0
    ensures 0 <= x < 0x8000_0000 ==> r == x
  {
    var m := x % TWO32;
    if m < 0x8000_0000 then m else m - TWO32
  }

  /** unsigned long long arithmetic */
  function Wrap64(x: int): int {
    x % TWO64
  }

  // ----- Reference: frames as maps -----------------------------------------------

  function RecOf(p: Proc): Rec {
    Rec(p.tid, Wrap64(p.utime + p.stime), p.majFlt, p.minFlt)
  }

  /** The index of the last record of `pid`, or -1. */
  function LastOf(recs: seq<Rec>, pid: int): (k: int)
    ensures -1 <= k < |recs|
    ensures k >= 0 ==> recs[k].pid == pid
    ensures forall i :: k < i < |recs| ==> recs[i].pid != pid
  {
    if recs == [] then -1
    else if recs[|recs| - 1].pid == pid then |recs| - 1
    else LastOf(recs[..|recs| - 1], pid)
  }

  /** What a task looks like once its counts are compared with the previous frame. */
  function WithHistory(saved: seq<Rec>, p: Proc): Proc {
    var k := LastOf(saved, p.tid);
    var tics := RecOf(p).tics;
    if k < 0 then p.(pcpu := ToInt32(tics))
    else p.(pcpu := ToInt32(Wrap64(tics - saved[k].tics)),
            majDelta := ToInt32(Wrap64(p.majFlt - saved[k].maj)),
            minDelta := ToInt32(Wrap64(p.minFlt - saved[k].min)))
  }

  /** The frame one fetch leaves behind. */
  function FrameOf(tasks: seq<Proc>): (f: seq<Rec>)
    ensures |f| == |tasks| && forall i :: 0 <= i < |tasks| ==> f[i] == RecOf(tasks[i])
  {
    seq(|tasks|, i requires 0 <= i < |tasks| => RecOf(tasks[i]))
  }

  // ----- Chains -------------------------------------------------------------------

  /** `K & (HHASH_SIZE - 1)`: the low bits of a two's complement int. */
  function HashPid(pid: int): (h: nat)
    ensures h < HHASH_SIZE
  {
    pid % HHASH_SIZE
  }

  /** The largest index below `n` whose pid hashes to `h`, or -1. */
  function BucketLast(recs: seq<Rec>, n: nat, h: nat): (k: int)
    requires n <= |recs|
    ensures -1 <= k < n
    ensures k >= 0 ==> HashPid(recs[k].pid) == h
    ensures forall i :: k < i < n ==> HashPid(recs[i].pid) != h
  {
    if n == 0 then -1
    else if HashPid(recs[n - 1].pid) == h then n - 1
    else BucketLast(recs, n - 1, h)
  }

  /** BucketLast is the only number its postconditions allow. */
  lemma {:induction false} BucketLastIs(recs: seq<Rec>, n: nat, h: nat, k: int)
    requires n <= |recs| && -1 <= k < n
    requires k >= 0 ==> HashPid(recs[k].pid) == h
    requires forall i :: k < i < n ==> HashPid(recs[i].pid) != h
    ensures BucketLast(recs, n, h) == k
  {
    if k < n - 1 {
      BucketLastIs(recs, n - 1, h, k);
    }
  }

  function HstOf(recs: seq<Rec>, k: nat): Hst
    requires k < |recs|
  {
    var r := recs[k];
    Hst(r.tics, r.maj, r.min, r.pid, BucketLast(recs, k, HashPid(r.pid)))
  }

  /** The records and chains of a frame as they lie in a record array and a hash table. */
  ghost predicate Stored(recs: seq<Rec>, hist: seq<Hst>, hash: seq<int>) {
    && |recs| <= |hist| && |hash| == HHASH_SIZE
    && (forall k :: 0 <= k < |recs| ==> hist[k] == HstOf(recs, k))
    && (forall h :: 0 <= h < HHASH_SIZE ==> hash[h] == BucketLast(recs, |recs|, h))
  }

  lemma BucketLastPrefix(recs: seq<Rec>, r: Rec, n: nat, h: nat)
    requires n <= |recs|
    ensures BucketLast(recs + [r], n, h) == BucketLast(recs, n, h)
  {
    BucketLastIs(recs + [r], n, h, BucketLast(recs, n, h));
  }

  /** Writing a record in the next slot and hooking it in front of its chain. */
  lemma StoredPut(recs: seq<Rec>, r: Rec, hist: seq<Hst>, hash: seq<int>, hist': seq<Hst>, hash': seq<int>)
    requires Stored(recs, hist, hash) && |recs| < |hist'|
    requires forall k :: 0 <= k < |recs| ==> hist'[k] == hist[k]
    requires hist'[|recs|] == Hst(r.tics, r.maj, r.min, r.pid, hash[HashPid(r.pid)])
    requires hash' == hash[HashPid(r.pid) := |recs|]
    ensures Stored(recs + [r], hist', hash')
  {
    var now, n := recs + [r], |recs|;
    forall k | 0 <= k < |now|
      ensures hist'[k] == HstOf(now, k)
    {
      BucketLastPrefix(recs, r, k, HashPid(now[k].pid));
    }
    forall h | 0 <= h < HHASH_SIZE
      ensures hash'[h] == BucketLast(now, |now|, h)
    {
      BucketLastPrefix(recs, r, n, h);
    }
  }

  // ----- Deltas over a whole run -------------------------------------------------------

  /** The frame saved when fetch number `f` of a run begins. */
  function SavedAt(run: seq<seq<Proc>>, f: nat): seq<Rec>
    requires f < |run|
  {
    if f == 0 then [] else FrameOf(run[f - 1])
  }

  ghost predicate InEveryFetch(run: seq<seq<Proc>>, pid: int) {
    forall f :: 0 <= f < |run| ==> LastOf(FrameOf(run[f]), pid) >= 0
  }

  function TaskOf(tasks: seq<Proc>, pid: int): (p: Proc)
    requires LastOf(FrameOf(tasks), pid) >= 0
    ensures p.tid == pid
  {
    tasks[LastOf(FrameOf(tasks), pid)]
  }

  /** The item for elapsed tics: the int of the task, shown as an unsigned one. */
  function TicsDelta(p: Proc): (r: int)
    ensures 0 <= r < TWO32
  {
    p.pcpu % TWO32
  }

  /** The tics shown for `pid` in fetch `f`, and in all fetches before `n`. */
  function Reported(run: seq<seq<Proc>>, pid: int, f: nat): int
    requires f < |run| && InEveryFetch(run, pid)
  {
    TicsDelta(WithHistory(SavedAt(run, f), TaskOf(run[f], pid)))
  }

  function ReportedBefore(run: seq<seq<Proc>>, pid: int, n: nat): int
    requires n <= |run| && InEveryFetch(run, pid)
  {
    if n == 0 then 0 else ReportedBefore(run, pid, n - 1) + Reported(run, pid, n - 1)
  }

  /** The true tics count of `pid` at fetch `f`, 0 before the run. */
  function TicsAt(run: seq<seq<Proc>>, pid: int, n: nat): int
    requires n <= |run| && InEveryFetch(run, pid)
  {
    if n == 0 then 0 else TicsOf(TaskOf(run[n - 1], pid))
  }

  /** The elapsed tics of a task, as an unsigned 64-bit number. */
  function TicsOf(p: Proc): int {
    (p.utime + p.stime) % 0x1_0000_0000_0000_0000
  }

  /**
   * The deltas of a task from the two `Proc` values alone: those of its tics, its major and its
   * minor faults, each modulo the width of an int. Nothing else in the task changes.
   */
  lemma DeltasAre(prev: seq<Proc>, i: nat, p: Proc)
    requires i < |prev| && prev[i].tid == p.tid && forall j :: i < j < |prev| ==> prev[j].tid != p.tid
    ensures var b, q := prev[i], WithHistory(FrameOf(prev), p);
            && q.pcpu % TWO32 == (TicsOf(p) - TicsOf(b)) % TWO32 && IsInt(q.pcpu)
            && q.majDelta % TWO32 == (p.majFlt - b.majFlt) % TWO32 && IsInt(q.majDelta)
            && q.minDelta % TWO32 == (p.minFlt - b.minFlt) % TWO32 && IsInt(q.minDelta)
            && q == p.(pcpu := q.pcpu, majDelta := q.majDelta, minDelta := q.minDelta)
  {
    var saved, b := FrameOf(prev), prev[i];
    LastOfIs(saved, p.tid, i);
    ShownLow(TicsOf(p) - TicsOf(b));
    ShownLow(p.majFlt - b.majFlt);
    ShownLow(p.minFlt - b.minFlt);
    hide ToInt32;
  }

  /** A task that the previous fetch did not list: all its tics, and its fault deltas as they come. */
  lemma DeltasOfNew(prev: seq<Proc>, p: Proc)
    requires forall j :: 0 <= j < |prev| ==> prev[j].tid != p.tid
    ensures var q := WithHistory(FrameOf(prev), p);
            q.pcpu % TWO32 == TicsOf(p) % TWO32 && IsInt(q.pcpu) && q == p.(pcpu := q.pcpu)
  {
    LastOfIs(FrameOf(prev), p.tid, -1);
    ShownLow(TicsOf(p));
  }

  predicate IsInt(x: int) {
    -0x8000_0000 <= x < 0x8000_0000
  }

  lemma {:induction false} LastOfIs(recs: seq<Rec>, pid: int, k: int)
    requires -1 <= k < |recs| && (k >= 0 ==> recs[k].pid == pid)
    requires forall j :: k < j < |recs| ==> recs[j].pid != pid
    ensures LastOf(recs, pid) == k
  {
    var l := LastOf(recs, pid);
    assert l >= 0 ==> recs[l].pid == pid;
  }

  /** Storing a difference in an int and showing it unsigned leaves its low 32 bits. */
  lemma ShownLow(x: int)
    ensures ToInt32(Wrap64(x)) % TWO32 == x % TWO32
  {
    var m := Wrap64(x);
    var k := x / TWO64;
    assert x == k * TWO64 + m;
    var j := (ToInt32(m) - m) / TWO32;
    SameLow(ToInt32(m), x, j - k * TWO32);
  }

  lemma SameLow(a: int, b: int, j: int)
    requires a - b == j * TWO32
    ensures a % TWO32 == b % TWO32
  {
    assert a == (j + b / TWO32) * TWO32 + b % TWO32;
    LowOf(j + b / TWO32, b % TWO32);
  }

  lemma LowOf(q: int, r: int)
    requires 0 <= r < TWO32
    ensures (q * TWO32 + r) % TWO32 == r
  {
  }

  /** One fetch shows the low 32 bits of the growth since the previous one. */
  lemma ReportedIsGrowth(run: seq<seq<Proc>>, pid: int, f: nat)
    requires f < |run| && InEveryFetch(run, pid)
    ensures Reported(run, pid, f) == (TicsAt(run, pid, f + 1) - TicsAt(run, pid, f)) % TWO32
  {
    ShownLow(TicsAt(run, pid, f + 1) - TicsAt(run, pid, f));
    hide ToInt32;
    if f > 0 {
      var saved := FrameOf(run[f - 1]);
      assert saved[LastOf(saved, pid)] == RecOf(TaskOf(run[f - 1], pid));
    } else {
      assert LastOf([], pid) == -1;
    }
  }

  /** No delta, the first one against 0, runs backwards or needs more than 32 bits. */
  ghost predicate FitsUnsigned(run: seq<seq<Proc>>, pid: int)
    requires InEveryFetch(run, pid)
  {
    forall f :: 0 <= f < |run| ==> 0 <= TicsAt(run, pid, f + 1) - TicsAt(run, pid, f) < TWO32
  }

  /**
   * A task present in every fetch of a run: the deltas shown add up to its latest tics count,
   * modulo the width of the item that shows them.
   */
  lemma {:induction false} DeltasTelescope(run: seq<seq<Proc>>, pid: int, n: nat)
    requires n <= |run| && InEveryFetch(run, pid)
    ensures (ReportedBefore(run, pid, n) - TicsAt(run, pid, n)) % TWO32 == 0
  {
    hide ToInt32, Wrap64, Reported, RecOf, TaskOf, LastOf, FrameOf;
    if n > 0 {
      DeltasTelescope(run, pid, n - 1);
      ReportedIsGrowth(run, pid, n - 1);
      var growth := TicsAt(run, pid, n) - TicsAt(run, pid, n - 1);
      LowDifference(growth);
      AddCongruent(ReportedBefore(run, pid, n - 1), TicsAt(run, pid, n - 1), Reported(run, pid, n - 1), growth);
    }
  }

  lemma LowDifference(x: int)
    ensures (x % TWO32 - x) % TWO32 == 0
  {
    assert x % TWO32 - x == -(x / TWO32) * TWO32;
  }

  lemma {:induction false} TelescopesSoFar(run: seq<seq<Proc>>, pid: int, n: nat)
    requires n <= |run| && InEveryFetch(run, pid) && FitsUnsigned(run, pid)
    ensures ReportedBefore(run, pid, n) == TicsAt(run, pid, n)
  {
    hide ToInt32, Wrap64, Reported, RecOf, TaskOf, LastOf, FrameOf;
    if n > 0 {
      TelescopesSoFar(run, pid, n - 1);
      ReportedIsGrowth(run, pid, n - 1);
    }
  }

  /**
   * The sums of what is shown are right throughout a run exactly when no delta runs backwards
   * or needs more than 32 bits.
   */
  lemma TelescopeExact(run: seq<seq<Proc>>, pid: int)
    requires InEveryFetch(run, pid)
    ensures (forall n :: 0 <= n <= |run| ==> ReportedBefore(run, pid, n) == TicsAt(run, pid, n))
       <==> FitsUnsigned(run, pid)
  {
    hide ToInt32, Wrap64, Reported, TicsAt;
    if FitsUnsigned(run, pid) {
      forall n | 0 <= n <= |run|
        ensures ReportedBefore(run, pid, n) == TicsAt(run, pid, n)
      {
        TelescopesSoFar(run, pid, n);
      }
    }
    if forall n :: 0 <= n <= |run| ==> ReportedBefore(run, pid, n) == TicsAt(run, pid, n) {
      forall f | 0 <= f < |run|
        ensures 0 <= TicsAt(run, pid, f + 1) - TicsAt(run, pid, f) < TWO32
      {
        ReportedIsGrowth(run, pid, f);
        assert ReportedBefore(run, pid, f + 1) == ReportedBefore(run, pid, f) + Reported(run, pid, f);
      }
    }
  }

  /** The two ways to fail happen: a pid taken over by a younger task, and a task older than 32 bits of tics. */
  lemma TelescopeFails(before: Proc, after: Proc, busy: Proc)
    requires before.tid == after.tid && TicsOf(before) == 100 && TicsOf(after) == 10
    requires TicsOf(busy) == TWO32 + 5
    ensures InEveryFetch([[before], [after]], before.tid) && InEveryFetch([[busy]], busy.tid)
    ensures ReportedBefore([[before], [after]], before.tid, 2) == 10 + TWO32
    ensures TicsAt([[before], [after]], before.tid, 2) == 10
    ensures ReportedBefore([[busy]], busy.tid, 1) == 5 && TicsAt([[busy]], busy.tid, 1) == TWO32 + 5
  {
    var run, one := [[before], [after]], [[busy]];
    OnlyTask(before);
    OnlyTask(after);
    OnlyTask(busy);
    hide RecOf, LastOf, FrameOf, Reported;
    ReportedIsGrowth(run, before.tid, 0);
    ReportedIsGrowth(run, before.tid, 1);
    ReportedIsGrowth(one, busy.tid, 0);
    assert ReportedBefore(run, before.tid, 1) == ReportedBefore(run, before.tid, 0) + Reported(run, before.tid, 0);
    assert ReportedBefore(one, busy.tid, 0) == 0;
  }

  lemma OnlyTask(p: Proc)
    ensures LastOf(FrameOf([p]), p.tid) == 0 && TaskOf([p], p.tid) == p
  {
    assert FrameOf([p])[0].pid == p.tid;
  }

  /** What is reported before fetch `n` does not depend on later fetches. */
  lemma {:induction false} ReportedPrefix(run: seq<seq<Proc>>, tasks: seq<Proc>, pid: int, n: nat)
    requires n <= |run| && InEveryFetch(run, pid) && InEveryFetch(run + [tasks], pid)
    ensures ReportedBefore(run + [tasks], pid, n) == ReportedBefore(run, pid, n)
  {
    hide InEveryFetch, WithHistory, TaskOf, FrameOf, LastOf;
    if n > 0 {
      ReportedPrefix(run, tasks, pid, n - 1);
      ReportedSame(run, tasks, pid, n - 1);
    }
  }

  lemma ReportedSame(run: seq<seq<Proc>>, tasks: seq<Proc>, pid: int, f: nat)
    requires f < |run| && InEveryFetch(run, pid) && InEveryFetch(run + [tasks], pid)
    ensures Reported(run + [tasks], pid, f) == Reported(run, pid, f)
  {
    hide WithHistory, TaskOf, LastOf, FrameOf;
    var longer := run + [tasks];
    assert longer[f] == run[f] && (f > 0 ==> longer[f - 1] == run[f - 1]);
  }

  /** One more fetch. */
  lemma ReportedNext(run: seq<seq<Proc>>, tasks: seq<Proc>, pid: int)
    requires InEveryFetch(run + [tasks], pid)
    ensures InEveryFetch(run, pid) && LastOf(FrameOf(tasks), pid) >= 0
    ensures ReportedBefore(run + [tasks], pid, |run| + 1) ==
            ReportedBefore(run, pid, |run|)
            + TicsDelta(WithHistory(if run == [] then [] else FrameOf(run[|run| - 1]), TaskOf(tasks, pid)))
  {
    hide WithHistory, TaskOf, LastOf, FrameOf;
    var longer := run + [tasks];
    assert forall f :: 0 <= f < |run| ==> longer[f] == run[f];
    assert longer[|run|] == tasks;
    ReportedPrefix(run, tasks, pid, |run|);
  }

  // ----- Page faults over a whole run ---------------------------------------------------------

  /** The faults of a task, major or minor, and what the item for their delta shows. */
  function Faults(p: Proc, major: bool): int {
    if major then p.majFlt else p.minFlt
  }

  function FaultDelta(p: Proc, major: bool): int {
    if major then p.majDelta else p.minDelta
  }

  /** The fault deltas shown for `pid`, added up over the fetches after the first one and before `n`. */
  function FaultsBefore(run: seq<seq<Proc>>, pid: int, n: nat, major: bool): int
    requires 0 < n <= |run| && InEveryFetch(run, pid)
  {
    if n == 1 then 0
    else
      FaultsBefore(run, pid, n - 1, major)
      + FaultDelta(WithHistory(SavedAt(run, n - 1), TaskOf(run[n - 1], pid)), major)
  }

  /** One fetch after the first shows the growth of the task's faults, as long as that fits an int. */
  lemma FaultGrowth(run: seq<seq<Proc>>, pid: int, f: nat, major: bool)
    requires 0 < f < |run| && InEveryFetch(run, pid)
    ensures var d := FaultDelta(WithHistory(SavedAt(run, f), TaskOf(run[f], pid)), major);
            var growth := Faults(TaskOf(run[f], pid), major) - Faults(TaskOf(run[f - 1], pid), major);
            d % TWO32 == growth % TWO32 && IsInt(d) && (d == growth <==> IsInt(growth))
  {
    var prev := run[f - 1];
    var k := LastOf(FrameOf(prev), pid);
    assert FrameOf(prev)[k].pid == prev[k].tid;
    assert forall j :: k < j < |prev| ==> prev[j].tid != pid by {
      assert forall j :: 0 <= j < |prev| ==> FrameOf(prev)[j].pid == prev[j].tid;
    }
    hide WithHistory, FrameOf, RecOf, LastOf;
    DeltasAre(prev, k, TaskOf(run[f], pid));
    SameInt(FaultDelta(WithHistory(SavedAt(run, f), TaskOf(run[f], pid)), major),
            Faults(TaskOf(run[f], pid), major) - Faults(TaskOf(run[f - 1], pid), major));
  }

  lemma SameInt(d: int, x: int)
    requires d % TWO32 == x % TWO32 && IsInt(d)
    ensures d == x <==> IsInt(x)
  {
  }

  /** The faults shown add up to what the task has had since the first fetch, modulo 2^32. */
  lemma {:induction false} FaultsTelescope(run: seq<seq<Proc>>, pid: int, n: nat, major: bool)
    requires 0 < n <= |run| && InEveryFetch(run, pid)
    ensures var growth := Faults(TaskOf(run[n - 1], pid), major) - Faults(TaskOf(run[0], pid), major);
            (FaultsBefore(run, pid, n, major) - growth) % TWO32 == 0
  {
    hide WithHistory, FrameOf, RecOf, LastOf, TaskOf, SavedAt, FaultDelta, Faults;
    if n > 1 {
      FaultsTelescope(run, pid, n - 1, major);
      FaultGrowth(run, pid, n - 1, major);
      var d := FaultDelta(WithHistory(SavedAt(run, n - 1), TaskOf(run[n - 1], pid)), major);
      var growth := Faults(TaskOf(run[n - 1], pid), major) - Faults(TaskOf(run[n - 2], pid), major);
      CongruentDifference(d, growth);
      AddCongruent(FaultsBefore(run, pid, n - 1, major),
                   Faults(TaskOf(run[n - 2], pid), major) - Faults(TaskOf(run[0], pid), major), d, growth);
    }
  }

  lemma CongruentDifference(a: int, b: int)
    requires a % TWO32 == b % TWO32
    ensures (a - b) % TWO32 == 0
  {
    assert a - b == (a / TWO32 - b / TWO32) * TWO32;
  }

  /** The fault sums are right at fetch `n`. */
  ghost predicate FaultsRight(run: seq<seq<Proc>>, pid: int, n: nat, major: bool)
    requires 0 < n <= |run| && InEveryFetch(run, pid)
  {
    FaultsBefore(run, pid, n, major) == Faults(TaskOf(run[n - 1], pid), major) - Faults(TaskOf(run[0], pid), major)
  }

  /** They are right throughout a run exactly when no growth between two fetches needs more than an int. */
  lemma FaultsExact(run: seq<seq<Proc>>, pid: int, major: bool)
    requires InEveryFetch(run, pid)
    ensures (forall n :: 0 < n <= |run| ==> FaultsRight(run, pid, n, major)) <==>
            (forall f :: 0 < f < |run| ==>
               IsInt(Faults(TaskOf(run[f], pid), major) - Faults(TaskOf(run[f - 1], pid), major)))
  {
    hide WithHistory, FrameOf, RecOf, LastOf, TaskOf, SavedAt, FaultDelta, Faults, IsInt;
    if forall n :: 0 < n <= |run| ==> FaultsRight(run, pid, n, major) {
      forall f | 0 < f < |run|
        ensures IsInt(Faults(TaskOf(run[f], pid), major) - Faults(TaskOf(run[f - 1], pid), major))
      {
        FaultGrowth(run, pid, f, major);
        assert FaultsRight(run, pid, f, major) && FaultsRight(run, pid, f + 1, major);
      }
    }
    if forall f :: 0 < f < |run| ==>
         IsInt(Faults(TaskOf(run[f], pid), major) - Faults(TaskOf(run[f - 1], pid), major)) {
      forall n | 0 < n <= |run|
        ensures FaultsRight(run, pid, n, major)
      {
        FaultsSoFar(run, pid, n, major);
      }
    }
  }

  lemma {:induction false} FaultsSoFar(run: seq<seq<Proc>>, pid: int, n: nat, major: bool)
    requires 0 < n <= |run| && InEveryFetch(run, pid)
    requires forall f :: 0 < f < |run| ==>
               IsInt(Faults(TaskOf(run[f], pid), major) - Faults(TaskOf(run[f - 1], pid), major))
    ensures FaultsRight(run, pid, n, major)
  {
    hide WithHistory, FrameOf, RecOf, LastOf, TaskOf, SavedAt, FaultDelta, Faults, IsInt;
    if n > 1 {
      FaultsSoFar(run, pid, n - 1, major);
      FaultGrowth(run, pid, n - 1, major);
    }
  }

  // ----- More fetches ---------------------------------------------------------------------------

  lemma FitsNext(run: seq<seq<Proc>>, tasks: seq<Proc>, pid: int)
    requires InEveryFetch(run, pid) && InEveryFetch(run + [tasks], pid)
    ensures TicsAt(run + [tasks], pid, |run|) == TicsAt(run, pid, |run|)
    ensures FitsUnsigned(run + [tasks], pid) <==>
            FitsUnsigned(run, pid)
            && 0 <= TicsAt(run + [tasks], pid, |run| + 1) - TicsAt(run, pid, |run|) < TWO32
  {
    var longer := run + [tasks];
    forall n | 0 <= n <= |run|
      ensures TicsAt(longer, pid, n) == TicsAt(run, pid, n)
    {
      assert n > 0 ==> longer[n - 1] == run[n - 1];
    }
    hide TicsAt;
    if FitsUnsigned(longer, pid) {
      forall f | 0 <= f < |run|
        ensures 0 <= TicsAt(run, pid, f + 1) - TicsAt(run, pid, f) < TWO32
      {
        assert TicsAt(longer, pid, f + 1) - TicsAt(longer, pid, f) < TWO32;
      }
    }
  }

  /** One more fetch leaves a sum that was right as it should be exactly when its delta fits. */
  lemma SumRightNext(run: seq<seq<Proc>>, tasks: seq<Proc>, pid: int)
    requires InEveryFetch(run, pid) && InEveryFetch(run + [tasks], pid)
    requires ReportedBefore(run, pid, |run|) == TicsAt(run, pid, |run|)
    ensures ReportedBefore(run + [tasks], pid, |run| + 1) == TicsAt(run + [tasks], pid, |run| + 1)
            && FitsUnsigned(run, pid)
       <==> FitsUnsigned(run + [tasks], pid)
  {
    hide *;
    var longer, n := run + [tasks], |run|;
    assert |longer| == n + 1;
    FitsNext(run, tasks, pid);
    ReportedPrefix(run, tasks, pid, n);
    ReportedIsGrowth(longer, pid, n);
    ReportedLast(longer, pid, n);
    LowExact(TicsAt(longer, pid, n + 1) - TicsAt(run, pid, n));
  }

  lemma ReportedLast(run: seq<seq<Proc>>, pid: int, n: nat)
    requires n < |run| && InEveryFetch(run, pid)
    ensures ReportedBefore(run, pid, n + 1) == ReportedBefore(run, pid, n) + Reported(run, pid, n)
  {
    hide Reported, InEveryFetch;
  }

  lemma LowExact(x: int)
    ensures x % TWO32 == x <==> 0 <= x < TWO32
  {
  }

  lemma AddCongruent(a: int, b: int, c: int, d: int)
    requires (a - b) % TWO32 == 0 && (c - d) % TWO32 == 0
    ensures (a + c - (b + d)) % TWO32 == 0
  {
    var i, j := (a - b) / TWO32, (c - d) / TWO32;
    assert a + c - (b + d) == (i + j) * TWO32;
  }

  // ----- The history object ---------------------------------------------------------

  class History {
    var numTasks: nat
    var histSiz: nat
    var histSav: array<Hst>
    var histNew: array<Hst>
    var hashSav: array<int>
    var hashNew: array<int>

    /** The frame of the previous fetch and the one being gathered. */
    ghost var saved: seq<Rec>
    ghost var current: seq<Rec>
    ghost var Repr: set<object>

    ghost predicate Valid()
      reads this, Repr
    {
      && Repr == {this, histSav, histNew, hashSav, hashNew}
      && histSav != histNew && hashSav != hashNew
      && (histSav as object) != hashSav && (histSav as object) != hashNew
      && (histNew as object) != hashSav && (histNew as object) != hashNew
      && histSav.Length == histNew.Length == histSiz
      && numTasks == |current| < histSiz
      && Stored(saved, histSav[..], hashSav[..])
      && Stored(current, histNew[..], hashNew[..])
    }

    /** The calloc of the two arrays in procps_pids_new, then pids_config_history. */
    constructor ()
      ensures Valid() && fresh(Repr)
      ensures saved == [] && current == []
    {
      numTasks := 0;
      histSiz := NEWOLD_INIT;
      var zero := Hst(0, 0, 0, 0, 0);
      histNew := new Hst[NEWOLD_INIT](_ => zero);
      histSav := new Hst[NEWOLD_INIT](_ => zero);
      hashSav := new int[HHASH_SIZE](_ => -1);
      hashNew := new int[HHASH_SIZE](_ => -1);
      saved, current := [], [];
      new;
      Repr := {this, histSav, histNew, hashSav, hashNew};
    }

    /** pids_histget: the slot of `pid` in the previous frame, or -1 for NULL. */
    method HistGet(pid: int) returns (V: int)
      requires Valid()
      ensures V == LastOf(saved, pid)
    {
      V := hashSav[HashPid(pid)];
      assert V == hashSav[..][HashPid(pid)];
      while -1 < V
        invariant -1 <= V < |saved|
        invariant V >= 0 ==> HashPid(saved[V].pid) == HashPid(pid)
        invariant forall i :: V < i < |saved| ==> saved[i].pid != pid
        decreases V
      {
        assert histSav[V] == histSav[..][V] == HstOf(saved, V);
        if histSav[V].pid == pid {
          return;
        }
        V := histSav[V].lnk;
      }
    }

    /** pids_histput */
    method HistPut(slot: nat)
      requires slot < histNew.Length && hashNew.Length == HHASH_SIZE
      modifies histNew, hashNew
      requires (histNew as object) != hashNew
      ensures histNew[..] == old(histNew[..])[slot := old(histNew[slot]).(lnk := old(hashNew[HashPid(histNew[slot].pid)]))]
      ensures hashNew[..] == old(hashNew[..])[HashPid(old(histNew[slot]).pid) := slot]
    {
      var V := HashPid(histNew[slot].pid);
      histNew[slot] := histNew[slot].(lnk := hashNew[V]);
      hashNew[V] := slot;
    }

    /** realloc of a record array: the old part is kept, the new part is anything. */
    static method Realloc(a: array<Hst>, n: nat) returns (b: array<Hst>)
      requires a.Length <= n
      ensures fresh(b) && b.Length == n && b[..a.Length] == a[..]
    {
      b := new Hst[n];
      forall i | 0 <= i < a.Length {
        b[i] := a[i];
      }
    }

    /** The growth at the top of pids_make_hist. */
    method GrowMaybe()
      requires Valid()
      modifies this`histSiz, this`histSav, this`histNew, this`Repr
      ensures Valid() && fresh(Repr - old(Repr)) && numTasks + 1 < histSiz
      ensures hashNew == old(hashNew) && hashSav == old(hashSav)
    {
      if numTasks + 1 >= histSiz {
        histSiz := histSiz + NEWOLD_GROW;
        var sav := Realloc(histSav, histSiz);
        var now := Realloc(histNew, histSiz);
        assert forall k :: 0 <= k < histSav.Length ==> sav[..][k] == sav[..histSav.Length][k];
        assert forall k :: 0 <= k < histNew.Length ==> now[..][k] == now[..histNew.Length][k];
        histSav := sav;
        histNew := now;
        Repr := {this, histSav, histNew, hashSav, hashNew};
      }
    }

    /** pids_make_hist: record the task in the new frame, compare it with the saved one. */
    method MakeHist(p: Proc) returns (p': Proc)
      requires Valid()
      modifies Repr
      ensures Valid() && fresh(Repr - old(Repr))
      ensures saved == old(saved) && current == old(current) + [RecOf(p)]
      ensures p' == WithHistory(saved, p)
    {
      GrowMaybe();
      var slot := numTasks;
      ghost var hist, hash := histNew[..], hashNew[..];
      var tics := Wrap64(p.utime + p.stime);
      histNew[slot] := Hst(tics, p.majFlt, p.minFlt, p.tid, histNew[slot].lnk);
      HistPut(slot);
      StoredPut(current, RecOf(p), hist, hash, histNew[..], hashNew[..]);
      current := current + [RecOf(p)];
      numTasks := numTasks + 1;
      var V := HistGet(p.tid);
      p' := p;
      if V != -1 {
        var h := histSav[V];
        assert h == histSav[..][V];
        tics := Wrap64(tics - h.tics);
        p' := p'.(majDelta := ToInt32(Wrap64(p.majFlt - h.maj)),
                  minDelta := ToInt32(Wrap64(p.minFlt - h.min)));
      }
      p' := p'.(pcpu := ToInt32(tics));
    }

    /** pids_toggle_history: the new frame becomes the old one, and a new one starts empty. */
    method ToggleHistory()
      requires Valid()
      modifies this, hashSav
      ensures Valid() && Repr == old(Repr)
      ensures saved == old(current) && current == []
    {
      histSav, histNew := histNew, histSav;
      hashSav, hashNew := hashNew, hashSav;
      forall i | 0 <= i < HHASH_SIZE {
        hashNew[i] := -1;
      }
      numTasks := 0;
      saved, current := current, [];
      assert hashSav[..] == old(hashNew[..]);
    }
  }
}
