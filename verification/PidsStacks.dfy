/**
 * library/pids.c, result stacks: extents own the stacks, the anchor lists the ones a
 * fetch fills, `get` has one of its own, and reset relabels or discards them all.
 */
module PidsStacks {
  import opened Options
  import opened PidsHistory

  const STACKS_INIT: nat := 1024
  const STACKS_GROW: nat := 128

  const EINVAL: int := 22

  /** enum pids_fetch_type, enum pids_select_type */
  const TASKS_ONLY: int := 0
  const THREADS_TOO: int := 1
  const SELECT_PID: int := 0x10000
  const SELECT_UID: int := 0x20000

  /** pids_result: an item's enumerator and its value; 0 is a value not yet set. */
  datatype Result = Result(item: int, val: int)

  /**
   * What Item_table says: its size, which items need history, what each needs to have read,
   * and the setters.
   */
  datatype ItemTable = ItemTable(logicalEnd: int, needhist: int -> bool, oldflags: int -> set<int>,
                                 setsfunc: (int, Proc) -> int)

  /** pids_counts */
  datatype Counts = Counts(total: nat, running: nat, sleeping: nat, diskSleep: nat, stopped: nat,
                           zombied: nat, other: nat)

  // ----- Reference: what a fetch should show ------------------------------------------

  /** The items of a stack, in order, each with its value for `p`, and the end marker. */
  ghost predicate Shows(table: ItemTable, items: seq<int>, results: seq<Result>, p: Proc) {
    && |items| <= |results|
    && (forall i :: 0 <= i < |items| ==> results[i].item == items[i])
    && (forall i :: 0 <= i < |items| - 1 ==> results[i].val == table.setsfunc(items[i], p))
  }

  /** The task as the setters see it: with its deltas when some item needs them. */
  function Seen(historyYes: bool, saved: seq<Rec>, p: Proc): Proc {
    if historyYes then WithHistory(saved, p) else p
  }

  function CountIf(tasks: seq<Proc>, states: set<char>): nat {
    if tasks == [] then 0
    else CountIf(tasks[..|tasks| - 1], states) + if tasks[|tasks| - 1].state in states then 1 else 0
  }

  /** The summary of a fetch: one count per state, and the total. */
  ghost predicate Summarises(c: Counts, tasks: seq<Proc>) {
    && c.total == |tasks|
    && c.running == CountIf(tasks, {'R'})
    && c.diskSleep == CountIf(tasks, {'D'})
    && c.sleeping == CountIf(tasks, {'S'})
    && c.stopped == CountIf(tasks, {'t', 'T'})
    && c.zombied == CountIf(tasks, {'Z'})
    && c.total == c.running + c.diskSleep + c.sleeping + c.stopped + c.zombied + c.other
  }

  /** The switch in pids_proc_tally. */
  function Tally(c: Counts, state: char): Counts {
    var c' := c.(total := c.total + 1);
    match state
    case 'R' => c'.(running := c.running + 1)
    case 'D' => c'.(diskSleep := c.diskSleep + 1)
    case 'S' => c'.(sleeping := c.sleeping + 1)
    case 't' => c'.(stopped := c.stopped + 1)
    case 'T' => c'.(stopped := c.stopped + 1)
    case 'Z' => c'.(zombied := c.zombied + 1)
    case _ => c'.(other := c.other + 1)
  }

  lemma TallySummarises(c: Counts, tasks: seq<Proc>, p: Proc)
    requires Summarises(c, tasks)
    ensures Summarises(Tally(c, p.state), tasks + [p])
  {
    var now := tasks + [p];
    assert now[..|now| - 1] == tasks;
  }

  lemma PrefixNext(tasks: seq<Proc>, k: nat)
    requires k < |tasks|
    ensures tasks[..k + 1] == tasks[..k] + [tasks[k]]
    ensures FrameOf(tasks[..k + 1]) == FrameOf(tasks[..k]) + [RecOf(tasks[k])]
  {
    assert tasks[..k + 1][..k] == tasks[..k];
  }

  // ----- Reference: a whole run -------------------------------------------------------------

  /** The table `get` keeps open: for tasks or threads, and what is read of each. */
  datatype Table = Table(kind: int, flags: set<int>)

  /**
   * What later operations can depend on: the items, the frame the next fetch compares with,
   * the table `get` has open, and whether the installed reader is readeither.
   */
  datatype Abs = Abs(items: seq<int>, frame: seq<Rec>, open: Option<Table>, either: bool)

  /** A new context. */
  function AbsNew(items: seq<int>): Abs {
    Abs(items, [], None, false)
  }

  /** pids_items_check_failed */
  predicate ItemsCheckFailed(table: ItemTable, items: seq<int>) {
    |items| < 1 || exists i :: 0 <= i < |items| && !(0 <= items[i] < table.logicalEnd)
  }

  /** None, or one that is no item of the table. */
  lemma CheckIs(table: ItemTable, items: seq<int>)
    ensures ItemsCheckFailed(table, items) <==>
            items == [] || exists i :: 0 <= i < |items| && (items[i] < 0 || items[i] >= table.logicalEnd)
  {
  }

  predicate NeedsHistory(table: ItemTable, items: seq<int>) {
    exists i :: 0 <= i < |items| && table.needhist(items[i])
  }

  lemma NeedsHistoryNext(table: ItemTable, items: seq<int>, i: nat)
    requires i < |items|
    ensures NeedsHistory(table, items[..i + 1]) <==> NeedsHistory(table, items[..i]) || table.needhist(items[i])
  {
    if NeedsHistory(table, items[..i]) {
      var k :| 0 <= k < i && table.needhist(items[..i][k]);
      assert items[..i + 1][k] == items[..i][k];
    }
    if table.needhist(items[i]) {
      assert items[..i + 1][i] == items[i];
    }
  }

  /** What the items need to have read. */
  function Flags(table: ItemTable, items: seq<int>): set<int> {
    if items == [] then {} else Flags(table, items[..|items| - 1]) + table.oldflags(items[|items| - 1])
  }

  /** All that any of the items needs, and nothing else. */
  lemma {:induction false} FlagsExact(table: ItemTable, items: seq<int>, flag: int)
    ensures flag in Flags(table, items) <==> exists i :: 0 <= i < |items| && flag in table.oldflags(items[i])
  {
    if items != [] {
      var n := |items| - 1;
      FlagsExact(table, items[..n], flag);
      if i :| 0 <= i < |items| && flag in table.oldflags(items[i]) {
        assert i < n ==> items[..n][i] == items[i];
      }
      if i :| 0 <= i < n && flag in table.oldflags(items[..n][i]) {
        assert flag in table.oldflags(items[i]);
      }
    }
  }

  predicate SelectType(which: int) {
    which == SELECT_PID || which == SELECT_UID || which == SELECT_PID + 1 || which == SELECT_UID + 1
  }

  predicate FetchType(which: int) {
    which == TASKS_ONLY || which == THREADS_TOO
  }

  /** A fetch installs its reader and leaves its frame. */
  function AbsFetch(table: ItemTable, a: Abs, either: bool, tasks: seq<Proc>): Abs {
    a.(either := either, frame := if NeedsHistory(table, a.items) then FrameOf(tasks) else [])
  }

  /** More items than before: every stack is given up, and with the get stack its table. */
  function AbsReset(table: ItemTable, a: Abs, newitems: seq<int>): Abs {
    if ItemsCheckFailed(table, newitems) then a
    else a.(items := newitems, open := if |a.items| < |newitems| then None else a.open)
  }

  predicate OpenFor(open: Option<Table>, which: int) {
    open.Some? && open.value.kind == which
  }

  /** A get installs its reader, and says what is to be read, only when it opens a table. */
  function AbsGet(table: ItemTable, a: Abs, which: int): Abs {
    if !FetchType(which) || a.items == [] || OpenFor(a.open, which) then a
    else a.(open := Some(Table(which, Flags(table, a.items))), either := which == THREADS_TOO)
  }

  /** The calls a program makes on one context. */
  datatype Op =
    | OpReset(items: seq<int>)
    | OpGet(fetchType: int, viaReadproc: Option<Proc>, viaReadeither: Option<Proc>)
    | OpReap(fetchType: int, tasks: seq<Proc>)
    | OpSelect(numthese: int, selectType: int, tasks: seq<Proc>)

  function AbsStep(table: ItemTable, a: Abs, op: Op): Abs {
    match op
    case OpReset(items) => AbsReset(table, a, items)
    case OpGet(which, _, _) => AbsGet(table, a, which)
    case OpReap(which, tasks) =>
      if FetchType(which) && a.items != [] then AbsFetch(table, a, which == THREADS_TOO, tasks) else a
    case OpSelect(n, which, tasks) =>
      if n >= 1 && SelectType(which) && a.items != [] then AbsFetch(table, a, which % 2 == 1, tasks) else a
  }

  function AbsRun(table: ItemTable, a: Abs, ops: seq<Op>): Abs {
    if ops == [] then a else AbsStep(table, AbsRun(table, a, ops[..|ops| - 1]), ops[|ops| - 1])
  }

  // ----- Which reader serves a get ---------------------------------------------------------

  /** The items after some calls: those of the last reset that was accepted. */
  function ItemsAfter(table: ItemTable, items: seq<int>, ops: seq<Op>): seq<int> {
    if ops == [] then items
    else
      var before := ItemsAfter(table, items, ops[..|ops| - 1]);
      match ops[|ops| - 1]
      case OpReset(newitems) => if ItemsCheckFailed(table, newitems) then before else newitems
      case _ => before
  }

  /** The get that opened the table now open, or -1 when none is. */
  function Opener(table: ItemTable, items: seq<int>, ops: seq<Op>): (k: int)
    ensures -1 <= k < |ops|
    ensures k >= 0 ==> ops[k].OpGet? && FetchType(ops[k].fetchType)
  {
    if ops == [] then -1
    else
      var n := |ops| - 1;
      var k, had := Opener(table, items, ops[..n]), ItemsAfter(table, items, ops[..n]);
      match ops[n]
      case OpReset(newitems) => if !ItemsCheckFailed(table, newitems) && |had| < |newitems| then -1 else k
      case OpGet(which, _, _) =>
        if !FetchType(which) || had == [] || (k >= 0 && ops[k].fetchType == which) then k else n
      case _ => k
  }

  /** Does call `op` fetch, given the items it finds. */
  predicate Fetches(op: Op, had: seq<int>) {
    had != [] &&
    match op
    case OpReap(which, _) => FetchType(which)
    case OpSelect(n, which, _) => n >= 1 && SelectType(which)
    case _ => false
  }

  /** The last call that fetched, or -1. */
  function LastFetch(table: ItemTable, items: seq<int>, ops: seq<Op>): (k: int)
    ensures -1 <= k < |ops|
    ensures k >= 0 ==> ops[k].OpReap? || ops[k].OpSelect?
  {
    if ops == [] then -1
    else
      var n := |ops| - 1;
      if Fetches(ops[n], ItemsAfter(table, items, ops[..n])) then n else LastFetch(table, items, ops[..n])
  }

  /** Does a reap or a select ask for threads. */
  predicate Threads(op: Op)
    requires op.OpReap? || op.OpSelect?
  {
    match op
    case OpReap(which, _) => which == THREADS_TOO
    case OpSelect(_, which, _) => which % 2 == 1
  }

  /** The table that call number `k` opened. */
  function Opened(table: ItemTable, items: seq<int>, ops: seq<Op>, k: nat): Table
    requires k < |ops| && ops[k].OpGet?
  {
    Table(ops[k].fetchType, Flags(table, ItemsAfter(table, items, ops[..k])))
  }

  lemma OpenedBefore(table: ItemTable, items: seq<int>, ops: seq<Op>, k: int)
    requires ops != [] && (k >= 0 ==> k < |ops| - 1 && ops[k].OpGet?)
    ensures k >= 0 ==> Opened(table, items, ops, k) == Opened(table, items, ops[..|ops| - 1], k)
  {
    assert k >= 0 ==> ops[..|ops| - 1][..k] == ops[..k];
  }

  lemma OpenedNow(table: ItemTable, items: seq<int>, ops: seq<Op>)
    requires ops != [] && ops[|ops| - 1].OpGet?
    ensures Opened(table, items, ops, |ops| - 1)
            == Table(ops[|ops| - 1].fetchType, Flags(table, ItemsAfter(table, items, ops[..|ops| - 1])))
  {
  }

  lemma AbsRunNone(table: ItemTable, a: Abs)
    ensures AbsRun(table, a, []) == a
  {
  }

  lemma AbsRunNext(table: ItemTable, a: Abs, ops: seq<Op>)
    requires ops != []
    ensures AbsRun(table, a, ops) == AbsStep(table, AbsRun(table, a, ops[..|ops| - 1]), ops[|ops| - 1])
  {
  }

  /** The items, the open table and, while one is open, the installed reader, from the calls alone. */
  lemma {:induction false} ReaderIs(table: ItemTable, items: seq<int>, ops: seq<Op>)
    ensures var a := AbsRun(table, AbsNew(items), ops);
            var k, f := Opener(table, items, ops), LastFetch(table, items, ops);
            && a.items == ItemsAfter(table, items, ops)
            && a.open == (if k < 0 then None else Some(Opened(table, items, ops, k)))
            && (k >= 0 ==> a.either == if k < f then Threads(ops[f]) else ops[k].fetchType == THREADS_TOO)
    decreases |ops|
  {
    hide ItemsCheckFailed, NeedsHistory, Flags, FrameOf, AbsRun;
    if ops == [] {
      AbsRunNone(table, AbsNew(items));
    } else {
      var before := ops[..|ops| - 1];
      AbsRunNext(table, AbsNew(items), ops);
      OpenedBefore(table, items, ops, Opener(table, items, before));
      ReaderIs(table, items, before);
      if ops[|ops| - 1].OpGet? {
        OpenedNow(table, items, ops);
      }
    }
  }

  /**
   * After any run, a get is served by its own kind of reader, unless its table was already
   * open and the last fetch since it was opened was of the other kind: exactly then it is
   * served by the other reader.
   */
  lemma OwnReader(table: ItemTable, items: seq<int>, ops: seq<Op>, which: int)
    requires FetchType(which) && ItemsAfter(table, items, ops) != []
    ensures var k, f := Opener(table, items, ops), LastFetch(table, items, ops);
            AbsGet(table, AbsRun(table, AbsNew(items), ops), which).either == (which == THREADS_TOO) <==>
            !(k >= 0 && ops[k].fetchType == which && k < f && Threads(ops[f]) != (which == THREADS_TOO))
  {
    ReaderIs(table, items, ops);
    hide AbsRun, ItemsAfter, Opener, LastFetch;
  }

  /**
   * After any run, a get reads everything its current items need, unless its table was already
   * open and some of them needs what the items back then did not: exactly then it does not.
   */
  lemma ReadsEnough(table: ItemTable, items: seq<int>, ops: seq<Op>, which: int)
    requires FetchType(which) && ItemsAfter(table, items, ops) != []
    ensures var k, now := Opener(table, items, ops), Flags(table, ItemsAfter(table, items, ops));
            var open := AbsGet(table, AbsRun(table, AbsNew(items), ops), which).open;
            OpenFor(open, which) &&
            (now <= open.value.flags <==>
             !(k >= 0 && ops[k].fetchType == which && !(now <= Flags(table, ItemsAfter(table, items, ops[..k])))))
  {
    ReaderIs(table, items, ops);
    hide AbsRun, ItemsAfter, Opener, LastFetch, Flags;
  }

  /** The other case happens: a get, a reset to as many items that need more, the same get again. */
  lemma ReadsTooLittle(table: ItemTable, a: int, b: int, flag: int, first: Option<Proc>)
    requires 0 <= b < table.logicalEnd && flag in table.oldflags(b) && flag !in table.oldflags(a)
    ensures var ops := [OpGet(TASKS_ONLY, first, first), OpReset([b])];
            var open := AbsGet(table, AbsRun(table, AbsNew([a]), ops), TASKS_ONLY).open;
            && ItemsAfter(table, [a], ops) == [b]
            && flag in Flags(table, [b]) && OpenFor(open, TASKS_ONLY) && flag !in open.value.flags
  {
    var ops := [OpGet(TASKS_ONLY, first, first), OpReset([b])];
    assert ops[..1] == [ops[0]] && [ops[0]][..0] == [] && [a][..0] == [] && [b][..0] == [];
    assert AbsRun(table, AbsNew([a]), ops[..1]) == AbsStep(table, AbsNew([a]), ops[0]);
    assert ItemsAfter(table, [a], ops[..1]) == [a];
    assert Flags(table, [a]) == table.oldflags(a) && Flags(table, [b]) == table.oldflags(b);
  }

  // ----- The deltas a context reports ------------------------------------------------------

  /** The task lists of the calls that fetched, in order. */
  function FetchedLists(table: ItemTable, items: seq<int>, ops: seq<Op>): seq<seq<Proc>> {
    if ops == [] then []
    else
      var n := |ops| - 1;
      var before := FetchedLists(table, items, ops[..n]);
      if Fetches(ops[n], ItemsAfter(table, items, ops[..n])) then before + [ops[n].tasks] else before
  }

  /** At every moment of the run some item needs history, whatever resets there are. */
  ghost predicate HistoryThroughout(table: ItemTable, items: seq<int>, ops: seq<Op>) {
    forall k :: 0 <= k <= |ops| ==> NeedsHistory(table, ItemsAfter(table, items, ops[..k]))
  }

  lemma HistoryBefore(table: ItemTable, items: seq<int>, ops: seq<Op>)
    requires HistoryThroughout(table, items, ops) && ops != []
    ensures HistoryThroughout(table, items, ops[..|ops| - 1])
    ensures NeedsHistory(table, ItemsAfter(table, items, ops[..|ops| - 1]))
  {
    var before := ops[..|ops| - 1];
    forall k | 0 <= k <= |before|
      ensures NeedsHistory(table, ItemsAfter(table, items, before[..k]))
    {
      assert before[..k] == ops[..k];
    }
  }

  lemma FrameNext(table: ItemTable, a: Abs, op: Op)
    requires NeedsHistory(table, a.items)
    ensures AbsStep(table, a, op).frame == if Fetches(op, a.items) then FrameOf(op.tasks) else a.frame
  {
  }

  /** The frame a fetch compares with is that of the fetch before it, whatever came in between. */
  lemma {:induction false} FrameIsSaved(table: ItemTable, items: seq<int>, ops: seq<Op>)
    requires HistoryThroughout(table, items, ops)
    ensures var run := FetchedLists(table, items, ops);
            AbsRun(table, AbsNew(items), ops).frame == if run == [] then [] else FrameOf(run[|run| - 1])
    decreases |ops|
  {
    if ops != [] {
      HistoryBefore(table, items, ops);
      AbsRunNext(table, AbsNew(items), ops);
      hide AbsRun, AbsStep, NeedsHistory, HistoryThroughout, FrameOf, Fetches, Opener, LastFetch, ItemsAfter;
      var before := ops[..|ops| - 1];
      FrameIsSaved(table, items, before);
      ReaderIs(table, items, before);
      FrameNext(table, AbsRun(table, AbsNew(items), before), ops[|ops| - 1]);
    }
  }

  /** The frame that the last fetch among the calls left, whatever items there were when. */
  function FrameLeft(table: ItemTable, items: seq<int>, ops: seq<Op>): seq<Rec> {
    var f := LastFetch(table, items, ops);
    if f >= 0 && NeedsHistory(table, ItemsAfter(table, items, ops[..f])) then FrameOf(ops[f].tasks) else []
  }

  /**
   * For every run: the next fetch compares with the tasks of the last one, if some item needed
   * history then, and with nothing otherwise.
   */
  lemma {:induction false} FrameIs(table: ItemTable, items: seq<int>, ops: seq<Op>)
    ensures AbsRun(table, AbsNew(items), ops).frame == FrameLeft(table, items, ops)
    decreases |ops|
  {
    hide NeedsHistory, FrameOf, ItemsAfter, Opener, Fetches, AbsRun, AbsStep;
    if ops == [] {
      AbsRunNone(table, AbsNew(items));
    } else {
      var before := ops[..|ops| - 1];
      AbsRunNext(table, AbsNew(items), ops);
      FrameIs(table, items, before);
      ReaderIs(table, items, before);
      FrameStep(table, AbsRun(table, AbsNew(items), before), ops[|ops| - 1]);
      var f := LastFetch(table, items, before);
      assert f >= 0 ==> before[..f] == ops[..f];
    }
  }

  lemma FrameStep(table: ItemTable, a: Abs, op: Op)
    ensures AbsStep(table, a, op).frame ==
            if !Fetches(op, a.items) then a.frame else if NeedsHistory(table, a.items) then FrameOf(op.tasks) else []
  {
  }

  /** The tics a context reports for `pid`, added up over the fetches of a run. */
  function ReportedByContext(table: ItemTable, items: seq<int>, ops: seq<Op>, pid: int): int
    requires InEveryFetch(FetchedLists(table, items, ops), pid)
    decreases |ops|
  {
    if ops == [] then 0
    else
      var n := |ops| - 1;
      var before := FetchedLists(table, items, ops[..n]);
      if Fetches(ops[n], ItemsAfter(table, items, ops[..n])) then
        ReportedNext(before, ops[n].tasks, pid);
        ReportedByContext(table, items, ops[..n], pid)
        + TicsDelta(WithHistory(AbsRun(table, AbsNew(items), ops[..n]).frame, TaskOf(ops[n].tasks, pid)))
      else
        ReportedByContext(table, items, ops[..n], pid)
  }

  lemma {:induction false} ReportedLists(table: ItemTable, items: seq<int>, ops: seq<Op>, pid: int)
    requires HistoryThroughout(table, items, ops)
    requires InEveryFetch(FetchedLists(table, items, ops), pid)
    ensures var run := FetchedLists(table, items, ops);
            ReportedByContext(table, items, ops, pid) == ReportedBefore(run, pid, |run|)
    decreases |ops|
  {
    if ops != [] {
      hide AbsRun, ItemsAfter, NeedsHistory, HistoryThroughout, WithHistory, TaskOf, FrameOf, InEveryFetch,
           Fetches, ReportedBefore, LastOf;
      var n := |ops| - 1;
      HistoryBefore(table, items, ops);
      FrameIsSaved(table, items, ops[..n]);
      if Fetches(ops[n], ItemsAfter(table, items, ops[..n])) {
        ReportedNext(FetchedLists(table, items, ops[..n]), ops[n].tasks, pid);
      }
      ReportedLists(table, items, ops[..n], pid);
    } else {
      hide InEveryFetch;
    }
  }

  /**
   * Over any run of a context that always needs history, resets included: what its fetches
   * show for a task they all list adds up to the latest tics count of the task, modulo the
   * width of the item that shows it.
   */
  lemma ContextTelescopes(table: ItemTable, items: seq<int>, ops: seq<Op>, pid: int)
    requires HistoryThroughout(table, items, ops)
    requires InEveryFetch(FetchedLists(table, items, ops), pid)
    ensures var run := FetchedLists(table, items, ops);
            (ReportedByContext(table, items, ops, pid) - TicsAt(run, pid, |run|)) % TWO32 == 0
  {
    hide *;
    var run := FetchedLists(table, items, ops);
    ReportedLists(table, items, ops, pid);
    DeltasTelescope(run, pid, |run|);
  }

  /** After these calls the deltas shown so far add up to the latest tics count. */
  ghost predicate SumIsRight(table: ItemTable, items: seq<int>, ops: seq<Op>, pid: int) {
    var run := FetchedLists(table, items, ops);
    InEveryFetch(run, pid) && ReportedByContext(table, items, ops, pid) == TicsAt(run, pid, |run|)
  }

  /** The same after each of these calls. */
  ghost predicate SumsAreRight(table: ItemTable, items: seq<int>, ops: seq<Op>, pid: int) {
    forall k :: 0 <= k <= |ops| ==> SumIsRight(table, items, ops[..k], pid)
  }

  /**
   * The sum is right after every call of a run exactly when no delta between its fetches runs
   * backwards or needs more than 32 bits.
   */
  lemma {:induction false} ContextExact(table: ItemTable, items: seq<int>, ops: seq<Op>, pid: int)
    requires HistoryThroughout(table, items, ops)
    requires InEveryFetch(FetchedLists(table, items, ops), pid)
    ensures SumsAreRight(table, items, ops, pid) <==> FitsUnsigned(FetchedLists(table, items, ops), pid)
    decreases |ops|
  {
    if ops == [] {
      SumsNone(table, items, pid);
    } else {
      var before := ops[..|ops| - 1];
      HistoryBefore(table, items, ops);
      FetchedBefore(table, items, ops, pid);
      SumsNext(table, items, ops, pid);
      SumNext(table, items, ops, pid);
      hide *;
      ContextExact(table, items, before, pid);
      if SumsAreRight(table, items, before, pid) {
        SumsLast(table, items, before, pid);
      }
    }
  }

  lemma SumsNone(table: ItemTable, items: seq<int>, pid: int)
    ensures FetchedLists(table, items, []) == [] && InEveryFetch([], pid)
    ensures SumsAreRight(table, items, [], pid) && FitsUnsigned([], pid)
  {
    var none: seq<Op> := [];
    assert none[..0] == none && SumIsRight(table, items, none, pid);
  }

  lemma FetchedBefore(table: ItemTable, items: seq<int>, ops: seq<Op>, pid: int)
    requires ops != [] && InEveryFetch(FetchedLists(table, items, ops), pid)
    ensures InEveryFetch(FetchedLists(table, items, ops[..|ops| - 1]), pid)
  {
    hide LastOf, FrameOf, Fetches, ItemsAfter;
    var run, before := FetchedLists(table, items, ops), FetchedLists(table, items, ops[..|ops| - 1]);
    assert forall f :: 0 <= f < |before| ==> before[f] == run[f];
  }

  lemma SumsLast(table: ItemTable, items: seq<int>, ops: seq<Op>, pid: int)
    requires SumsAreRight(table, items, ops, pid)
    ensures SumIsRight(table, items, ops, pid)
  {
    hide SumIsRight;
    assert ops[..|ops|] == ops;
  }

  lemma SumsNext(table: ItemTable, items: seq<int>, ops: seq<Op>, pid: int)
    requires ops != []
    ensures SumsAreRight(table, items, ops, pid) <==>
            SumsAreRight(table, items, ops[..|ops| - 1], pid) && SumIsRight(table, items, ops, pid)
  {
    hide SumIsRight;
    var before := ops[..|ops| - 1];
    assert ops[..|ops|] == ops;
    forall k | 0 <= k <= |before|
      ensures SumIsRight(table, items, before[..k], pid) <==> SumIsRight(table, items, ops[..k], pid)
    {
      assert before[..k] == ops[..k];
    }
  }

  /** One more call, after a run in which the sum was right. */
  lemma SumNext(table: ItemTable, items: seq<int>, ops: seq<Op>, pid: int)
    requires HistoryThroughout(table, items, ops) && ops != []
    requires InEveryFetch(FetchedLists(table, items, ops), pid)
    requires InEveryFetch(FetchedLists(table, items, ops[..|ops| - 1]), pid)
    ensures SumIsRight(table, items, ops[..|ops| - 1], pid) ==>
              (SumIsRight(table, items, ops, pid) && FitsUnsigned(FetchedLists(table, items, ops[..|ops| - 1]), pid)
               <==> FitsUnsigned(FetchedLists(table, items, ops), pid))
    ensures FitsUnsigned(FetchedLists(table, items, ops), pid) ==>
              FitsUnsigned(FetchedLists(table, items, ops[..|ops| - 1]), pid)
  {
    var before, op := ops[..|ops| - 1], ops[|ops| - 1];
    HistoryBefore(table, items, ops);
    SumIs(table, items, ops, pid);
    SumIs(table, items, before, pid);
    FetchedNext(table, items, ops);
    hide *;
    if Fetches(op, ItemsAfter(table, items, before)) {
      FitsNext(FetchedLists(table, items, before), op.tasks, pid);
      if SumIsRight(table, items, before, pid) {
        SumRightNext(FetchedLists(table, items, before), op.tasks, pid);
      }
    }
  }

  lemma SumIs(table: ItemTable, items: seq<int>, ops: seq<Op>, pid: int)
    requires HistoryThroughout(table, items, ops)
    requires InEveryFetch(FetchedLists(table, items, ops), pid)
    ensures var run := FetchedLists(table, items, ops);
            SumIsRight(table, items, ops, pid) <==> ReportedBefore(run, pid, |run|) == TicsAt(run, pid, |run|)
  {
    ReportedLists(table, items, ops, pid);
    hide ReportedByContext, FetchedLists, HistoryThroughout, InEveryFetch, ReportedBefore, TicsAt;
  }

  lemma FetchedNext(table: ItemTable, items: seq<int>, ops: seq<Op>)
    requires ops != []
    ensures var before, op := ops[..|ops| - 1], ops[|ops| - 1];
            FetchedLists(table, items, ops) ==
            if Fetches(op, ItemsAfter(table, items, before)) then FetchedLists(table, items, before) + [op.tasks]
            else FetchedLists(table, items, before)
  {
  }

  // ----- The objects --------------------------------------------------------------------

  /** A stack: as many results as the extent had room for when it was allocated. */
  class Stack {
    var results: seq<Result>

    constructor (results: seq<Result>)
      ensures this.results == results
    {
      this.results := results;
    }
  }

  /** A stack primed with `items`, with room for at least that many. */
  ghost predicate Labelled(s: Stack, items: seq<int>)
    reads s
  {
    |items| <= |s.results| && forall i :: 0 <= i < |items| ==> s.results[i].item == items[i]
  }

  /** A stack as it is allocated: the labels, and no values. */
  ghost predicate Primed(s: Stack, items: seq<int>)
    reads s
  {
    |s.results| == |items| && forall i :: 0 <= i < |items| ==> s.results[i] == Result(items[i], 0)
  }

  /** New items, with their end marker. */
  lemma NewItems(table: ItemTable, newitems: seq<int>)
    requires !ItemsCheckFailed(table, newitems)
    ensures var items := newitems + [table.logicalEnd];
            && |items| == |newitems| + 1 > 1 && items[|newitems|] == table.logicalEnd
            && forall i :: 0 <= i < |newitems| ==> 0 <= items[i] < table.logicalEnd
  {
  }

  /** The first `n` values are 0. */
  ghost predicate Zeroed(s: Stack, n: int)
    reads s
  {
    n <= |s.results| && forall k :: 0 <= k < n ==> s.results[k].val == 0
  }

  /** pids_itemize_stack on the first `|items|` results. */
  function Itemize(results: seq<Result>, items: seq<int>): (r: seq<Result>)
    requires |items| <= |results|
    ensures |r| == |results|
    ensures forall i :: 0 <= i < |items| ==> r[i] == results[i].(item := items[i])
    ensures forall i :: |items| <= i < |results| ==> r[i] == results[i]
  {
    seq(|results|, i requires 0 <= i < |results| =>
      if i < |items| then results[i].(item := items[i]) else results[i])
  }

  /** What a fetch leaves alone. */
  datatype Settings = Settings(maxitems: nat, items: seq<int>, historyYes: bool, oldflags: set<int>, hist: History,
                               getExt: Option<Stack>, getTable: Table, readEither: bool)

  ghost function Live(extents: seq<seq<Stack>>): set<Stack> {
    set e, s | e in extents && s in e :: s
  }

  class PidsInfo {
    const table: ItemTable
    var maxitems: nat                  // 0 until items were given
    var items: seq<int>                // includes the end marker
    var funcArray: seq<int>            // whose setter is called for each result
    var extents: seq<seq<Stack>>
    var anchor: Option<seq<Stack>>
    var nAlloc: nat
    var nInuse: nat
    var nSaved: nat
    var results: seq<Stack?>           // what the caller of a fetch is shown
    var counts: Counts
    var historyYes: bool
    var oldflags: set<int>
    var hist: History
    var getExt: Option<Stack>
    var getTable: Table                // get_type, and what get_PT was opened with
    var readEither: bool               // read_something: readeither rather than readproc
    ghost var Repr: set<object>

    ghost predicate ValidItems()
      reads `maxitems, `items, `funcArray, `extents, `anchor, `getExt, `historyYes, `oldflags
    {
      && maxitems == |items| != 1
      && (maxitems > 0 ==>
            && items[maxitems - 1] == table.logicalEnd
            && (forall i :: 0 <= i < maxitems - 1 ==> 0 <= items[i] < table.logicalEnd)
            && funcArray == items[..maxitems - 1])
      && (maxitems == 0 ==> extents == [] && anchor.None? && getExt.None? && !historyYes)
      && (historyYes <==> exists i :: 0 <= i < maxitems - 1 && table.needhist(items[i]))
      && oldflags == Flags(table, if maxitems > 0 then items[..maxitems - 1] else [])
    }

    /** Every live stack has room for, and is labelled with, the current items. */
    ghost predicate ValidStacks()
      reads `items, `extents, Live(extents)
    {
      forall s :: s in Live(extents) ==> Labelled(s, items)
    }

    /** The anchor holds distinct live stacks, none of them the one `get` uses. */
    ghost predicate ValidAnchor()
      reads `extents, `anchor, `nAlloc, `getExt
    {
      && (getExt.Some? ==> getExt.value in Live(extents))
      && (anchor.Some? ==>
            && |anchor.value| == nAlloc
            && (forall i :: 0 <= i < nAlloc ==> anchor.value[i] in Live(extents))
            && (forall i, j :: 0 <= i < j < nAlloc ==> anchor.value[i] != anchor.value[j])
            && (getExt.Some? ==> getExt.value !in anchor.value))
    }

    ghost predicate Valid()
      reads this, Repr
    {
      && this in Repr && hist in Repr && hist.Repr <= Repr && this !in hist.Repr
      && Live(extents) <= Repr && Live(extents) !! hist.Repr
      && hist.Valid() && |results| == nSaved
      && ValidItems() && ValidStacks() && ValidAnchor()
    }

    /** procps_pids_new without items. */
    constructor (table: ItemTable)
      ensures Valid() && fresh(Repr) && this.table == table
      ensures maxitems == 0 && hist.saved == [] && Abstract() == AbsNew([])
    {
      this.table := table;
      maxitems, items, funcArray := 0, [], [];
      extents, anchor, getExt := [], None, None;
      nAlloc, nInuse, nSaved, results := 0, 0, 0, [];
      counts := Counts(0, 0, 0, 0, 0, 0, 0);
      historyYes, oldflags, getTable, readEither := false, {}, Table(TASKS_ONLY, {}), false;
      hist := new History();
      new;
      Repr := {this} + hist.Repr;
    }

    ghost function Kept(): Settings
      reads this
    {
      Settings(maxitems, items, historyYes, oldflags, hist, getExt, getTable, readEither)
    }

    // --- allocation and labelling ---------------------------------------------------

    /** pids_stacks_alloc: a new extent of stacks, primed with the items, values zeroed. */
    method StacksAlloc(maxstacks: nat) returns (ext: seq<Stack>)
      requires Valid() && maxitems > 0
      modifies this`extents, this`Repr
      ensures Valid() && fresh(Repr - old(Repr)) && old(Repr) <= Repr
      ensures extents == [ext] + old(extents) && |ext| == maxstacks
      ensures forall i :: 0 <= i < maxstacks ==> fresh(ext[i]) && Primed(ext[i], items)
      ensures forall i, j :: 0 <= i < j < maxstacks ==> ext[i] != ext[j]
    {
      hide Labelled, Primed, History.Valid, NeedsHistory;
      ext := NewStacks(maxstacks);
      extents := [ext] + extents;
      Repr := Repr + set s | s in ext;
      LivePush(ext, old(extents));
    }

    /** The loop of pids_stacks_alloc. */
    method NewStacks(maxstacks: nat) returns (ext: seq<Stack>)
      requires maxitems == |items|
      ensures |ext| == maxstacks
      ensures forall k :: 0 <= k < maxstacks ==> fresh(ext[k]) && Labelled(ext[k], items) && Primed(ext[k], items)
      ensures forall j, k :: 0 <= j < k < maxstacks ==> ext[j] != ext[k]
    {
      ext := [];
      var list := Itemize(seq(maxitems, _ => Result(0, 0)), items);
      for i := 0 to maxstacks
        modifies {}
        invariant |ext| == i
        invariant forall k :: 0 <= k < i ==> fresh(ext[k]) && Labelled(ext[k], items) && Primed(ext[k], items)
        invariant forall j, k :: 0 <= j < k < i ==> ext[j] != ext[k]
      {
        var head := new Stack(list);
        ext := ext + [head];
      }
    }

    /** pids_cleanup_stack: zero the values in front of the end marker. */
    method CleanupStack(s: Stack)
      requires ValidItems() && maxitems > 0 && Labelled(s, items)
      modifies s
      ensures Labelled(s, items) && |s.results| == old(|s.results|)
      ensures Zeroed(s, maxitems - 1)
    {
      var i := 0;
      while s.results[i].item < table.logicalEnd
        invariant 0 <= i < maxitems
        invariant Labelled(s, items) && |s.results| == old(|s.results|)
        invariant forall k :: 0 <= k < i ==> s.results[k].val == 0
        decreases maxitems - i
      {
        s.results := s.results[i := s.results[i].(val := 0)];
        i := i + 1;
      }
    }

    /** pids_cleanup_stacks_all */
    method CleanupStacksAll()
      requires ValidItems() && ValidStacks()
      modifies Live(extents)
      ensures ValidStacks()
      ensures forall s :: s in Live(extents) ==> Zeroed(s, maxitems - 1)
    {
      hide Flags, NeedsHistory, Labelled, Zeroed, ValidItems;
      ghost var done: set<Stack> := {};
      for e := 0 to |extents|
        invariant ValidItems() && ValidStacks()
        invariant forall j, s :: 0 <= j < e && s in extents[j] ==> s in done
        invariant forall s :: s in done && s in Live(extents) ==> Zeroed(s, maxitems - 1)
      {
        for i := 0 to |extents[e]|
          invariant ValidItems() && ValidStacks()
          invariant forall j, s :: 0 <= j < e && s in extents[j] ==> s in done
          invariant forall j :: 0 <= j < i ==> extents[e][j] in done
          invariant forall s :: s in done && s in Live(extents) ==> Zeroed(s, maxitems - 1)
        {
          var s := extents[e][i];
          assert extents[e] in extents && s in extents[e];
          assert s in Live(extents);
          LiveItems(s);
          CleanupStack(s);
          done := done + {s};
        }
      }
      assert forall s :: s in Live(extents) ==> s in done;
    }

    lemma LiveItems(s: Stack)
      requires ValidItems() && s in Live(extents)
      ensures maxitems > 0
    {
    }

    /** pids_itemize_stacks_all: relabel every stack with the current items. */
    method ItemizeStacksAll()
      requires forall s :: s in Live(extents) ==> maxitems <= |s.results|
      requires maxitems == |items| && this !in (set s: object | s in Live(extents))
      modifies Live(extents)
      ensures ValidStacks()
      ensures forall s :: s in Live(extents) ==> |s.results| == old(|s.results|)
      ensures forall s, k :: s in Live(extents) && 0 <= k < |s.results| ==> s.results[k].val == old(s.results[k].val)
    {
      ghost var done: set<Stack> := {};
      for e := 0 to |extents|
        invariant done <= Live(extents)
        invariant forall j, s :: 0 <= j < e && s in extents[j] ==> s in done
        invariant forall s :: s in Live(extents) ==> |s.results| == old(|s.results|)
        invariant forall s, k :: s in Live(extents) && 0 <= k < |s.results| ==>
                    s.results[k].val == old(s.results[k].val)
        invariant forall s :: s in done ==> Labelled(s, items)
      {
        for i := 0 to |extents[e]|
          invariant done <= Live(extents)
          invariant forall j, s :: 0 <= j < e && s in extents[j] ==> s in done
          invariant forall j :: 0 <= j < i ==> extents[e][j] in done
          invariant forall s :: s in Live(extents) ==> |s.results| == old(|s.results|)
          invariant forall s, k :: s in Live(extents) && 0 <= k < |s.results| ==>
                      s.results[k].val == old(s.results[k].val)
          invariant forall s :: s in done ==> Labelled(s, items)
        {
          var s := extents[e][i];
          assert extents[e] in extents && s in extents[e];
          assert s in Live(extents);
          s.results := Itemize(s.results, items);
          done := done + {s};
        }
      }
    }

    /** pids_assign_results: call each setter on its own result. */
    method AssignResults(s: Stack, p: Proc)
      requires ValidItems() && maxitems > 0 && Labelled(s, items)
      modifies s
      ensures Labelled(s, items) && Shows(table, items, s.results, p)
    {
      var i := 0;
      while i < |funcArray|
        invariant 0 <= i <= |funcArray|
        invariant Labelled(s, items)
        invariant forall k :: 0 <= k < i ==> s.results[k].val == table.setsfunc(items[k], p)
      {
        s.results := s.results[i := s.results[i].(val := table.setsfunc(funcArray[i], p))];
        i := i + 1;
      }
    }

    // --- fetching ---------------------------------------------------------------------

    /** The first lines of pids_stacks_fetch: an anchor over a first extent. */
    method AnchorInit()
      requires Valid() && maxitems > 0
      modifies this`anchor, this`nAlloc, this`extents, this`Repr
      ensures Valid() && fresh(Repr - old(Repr)) && old(Repr) <= Repr && anchor.Some?
    {
      hide Flags, NeedsHistory, Labelled, Primed, Live, ValidStacks, History.Valid;
      if anchor.None? {
        var ext := StacksAlloc(STACKS_INIT);
        LivePush(ext, old(extents));
        anchor := Some(ext);
        nAlloc := STACKS_INIT;
      }
    }

    /** The growth inside the fetch loop: the anchor is continued with a new extent. */
    method AnchorGrow()
      requires Valid() && maxitems > 0 && anchor.Some? && nInuse <= nAlloc
      modifies this`anchor, this`nAlloc, this`extents, this`Repr
      ensures Valid() && fresh(Repr - old(Repr)) && old(Repr) <= Repr && anchor.Some? && nInuse < nAlloc
      ensures old(nAlloc) <= nAlloc && anchor.value[..nInuse] == old(anchor.value[..nInuse])
    {
      hide Flags, NeedsHistory, Labelled, Primed, Live, ValidStacks, History.Valid;
      if !(nInuse < nAlloc) {
        var ext := StacksAlloc(STACKS_GROW);
        LivePush(ext, old(extents));
        anchor := Some(anchor.value[..nInuse] + ext);
        nAlloc := nAlloc + STACKS_GROW;
      }
    }

    /** pids_proc_tally: count the task and, when some item needs it, record its history. */
    method ProcTally(p: Proc) returns (p': Proc)
      requires Valid()
      modifies this`counts, this`Repr, hist.Repr
      ensures Valid() && fresh(Repr - old(Repr)) && old(Repr) <= Repr
      ensures counts == Tally(old(counts), p.state)
      ensures p' == Seen(historyYes, hist.saved, p)
      ensures hist.saved == old(hist.saved)
      ensures hist.current == old(hist.current) + if historyYes then [RecOf(p)] else []
    {
      hide Tally, Labelled, Flags, ValidAnchor, ValidStacks, History.Valid;
      counts := Tally(counts, p.state);
      p' := p;
      if historyYes {
        p' := hist.MakeHist(p);
        Repr := Repr + hist.Repr;
        assert Live(extents) <= Repr && Live(extents) !! hist.Repr;
      }
    }

    /** Fill the next stack of the anchor; the anchor's other stacks are other objects. */
    method AssignNext(p: Proc)
      requires Valid() && maxitems > 0 && anchor.Some? && nInuse < nAlloc
      modifies this`nInuse, anchor.value[nInuse]
      ensures Valid() && nInuse == old(nInuse) + 1
      ensures forall i :: 0 <= i < nInuse - 1 ==> anchor.value[i].results == old(anchor.value[i].results)
      ensures Shows(table, items, anchor.value[nInuse - 1].results, p)
    {
      hide Flags, NeedsHistory, Shows, History.Valid;
      var s := anchor.value[nInuse];
      assert s in Live(extents);
      AssignResults(s, p);
      nInuse := nInuse + 1;
    }

    /** The frame a fetch of `tasks` leaves for the next one. */
    ghost function Frame(tasks: seq<Proc>): seq<Rec>
      reads this
    {
      if historyYes then FrameOf(tasks) else []
    }

    /** Stack number `i` of the anchor shows task number `i`, for the first `n` of them. */
    ghost predicate AnchorShows(saved: seq<Rec>, tasks: seq<Proc>, n: nat)
      reads this, if anchor.Some? then set s | s in anchor.value else {}
    {
      anchor.Some? && n <= |anchor.value| && n <= |tasks| &&
      forall i :: 0 <= i < n ==> Shows(table, items, anchor.value[i].results, Seen(historyYes, saved, tasks[i]))
    }

    /** The state of the fetch loop after `nInuse` tasks. */
    ghost predicate Fetching(saved: seq<Rec>, tasks: seq<Proc>)
      reads this, hist, if anchor.Some? then set s | s in anchor.value else {}
    {
      && maxitems > 0 && anchor.Some? && nInuse <= nAlloc && nInuse <= |tasks|
      && hist.saved == saved && hist.current == Frame(tasks[..nInuse])
      && AnchorShows(saved, tasks, nInuse) && Summarises(counts, tasks[..nInuse])
    }

    /** One task of the fetch loop. */
    method FetchOne(p: Proc)
      requires Valid() && maxitems > 0 && anchor.Some? && nInuse <= nAlloc
      modifies Repr
      ensures Valid() && fresh(Repr - old(Repr)) && old(Repr) <= Repr
      ensures Kept() == old(Kept()) && results == old(results) && nSaved == old(nSaved)
      ensures anchor.Some? && nInuse == old(nInuse) + 1 <= nAlloc == |anchor.value|
      ensures anchor.value[..nInuse - 1] == old(anchor.value[..nInuse])
      ensures forall i :: 0 <= i < nInuse - 1 ==> anchor.value[i].results == old(anchor.value[i].results)
      ensures Shows(table, items, anchor.value[nInuse - 1].results, Seen(historyYes, hist.saved, p))
      ensures counts == Tally(old(counts), p.state)
      ensures hist.saved == old(hist.saved)
      ensures hist.current == old(hist.current) + if historyYes then [RecOf(p)] else []
    {
      hide Shows, Tally, Seen, ValidItems, ValidStacks, Labelled, Live, RecOf, History.Valid;
      AnchorGrow();
      ghost var before := anchor.value;
      var p' := ProcTally(p);
      AssignNext(p');
      assert before[..nInuse - 1] == anchor.value[..nInuse - 1];
    }

    /** One turn of the fetch loop: the next task joins those already shown. */
    method FetchNext(tasks: seq<Proc>, ghost saved: seq<Rec>)
      requires Valid() && Fetching(saved, tasks) && nInuse < |tasks|
      modifies Repr
      ensures Valid() && fresh(Repr - old(Repr)) && old(Repr) <= Repr
      ensures Kept() == old(Kept()) && results == old(results) && nSaved == old(nSaved)
      ensures Fetching(saved, tasks) && nInuse == old(nInuse) + 1
    {
      hide Flags, NeedsHistory, Shows, Tally, Seen, Summarises, Valid, RecOf, FrameOf;
      var k := nInuse;
      ghost var before := anchor.value;
      TallySummarises(counts, tasks[..k], tasks[k]);
      PrefixNext(tasks, k);
      FetchOne(tasks[k]);
      assert forall i :: 0 <= i < k ==> anchor.value[i] == anchor.value[..k][i] == before[..k][i] == before[i];
    }

    /** The loop of pids_stacks_fetch; `tasks` is what the reader yields before its NULL. */
    method FetchLoop(tasks: seq<Proc>)
      requires Valid() && maxitems > 0 && anchor.Some? && hist.current == []
      requires counts == Counts(0, 0, 0, 0, 0, 0, 0)
      modifies Repr
      ensures Valid() && fresh(Repr - old(Repr)) && old(Repr) <= Repr
      ensures Kept() == old(Kept()) && results == old(results) && nSaved == old(nSaved)
      ensures Fetching(old(hist.saved), tasks) && nInuse == |tasks|
    {
      nInuse := 0;
      assert Fetching(hist.saved, tasks);
      hide *;
      while nInuse < |tasks|
        invariant Valid() && fresh(Repr - old(Repr)) && old(Repr) <= Repr
        invariant Kept() == old(Kept()) && results == old(results) && nSaved == old(nSaved)
        invariant Fetching(old(hist.saved), tasks) && nInuse <= |tasks|
        decreases |tasks| - nInuse
      {
        FetchNext(tasks, old(hist.saved));
      }
    }

    /** pids_stacks_fetch */
    method StacksFetch(tasks: seq<Proc>) returns (rc: int)
      requires Valid() && maxitems > 0
      modifies Repr
      ensures Valid() && fresh(Repr - old(Repr)) && old(Repr) <= Repr
      ensures Kept() == old(Kept())
      ensures rc == |tasks| && Fetched(old(hist.current), tasks)
    {
      hide Flags, NeedsHistory, Tally, Labelled, Shows, Summarises, AnchorShows, FrameOf, History.Valid, Live;
      FetchStart();
      FetchLoop(tasks);
      FetchEnd(tasks, old(hist.current));
      rc := nInuse;
    }

    method FetchStart()
      requires Valid() && maxitems > 0
      modifies Repr
      ensures Valid() && fresh(Repr - old(Repr)) && old(Repr) <= Repr && Kept() == old(Kept())
      ensures anchor.Some? && counts == Counts(0, 0, 0, 0, 0, 0, 0)
      ensures hist.saved == old(hist.current) && hist.current == []
    {
      hide Flags, NeedsHistory, Tally, Labelled;
      AnchorInit();
      hist.ToggleHistory();
      counts := Counts(0, 0, 0, 0, 0, 0, 0);
    }

    /** The last lines of pids_stacks_fetch: a NULL-delimited copy for the caller. */
    method FetchEnd(ghost tasks: seq<Proc>, ghost saved: seq<Rec>)
      requires Valid() && Fetching(saved, tasks)
      modifies this`results, this`nSaved
      ensures Valid() && Fetching(saved, tasks) && Exposed()
    {
      hide Shows, Summarises, FrameOf, Seen, Labelled, Flags, NeedsHistory, History.Valid;
      if nSaved < nInuse + 1 {
        results := results + seq(nInuse + 1 - nSaved, _ => null);
        nSaved := nInuse + 1;
      }
      results := anchor.value[..nInuse] + [null] + results[nInuse + 1..];
    }

    /** The caller sees the stacks in use and then a NULL. */
    ghost predicate Exposed()
      reads this
    {
      && anchor.Some? && nInuse <= |anchor.value| && nInuse < nSaved == |results|
      && (forall i :: 0 <= i < nInuse ==> results[i] == anchor.value[i])
      && results[nInuse] == null
    }

    // --- the public operations ------------------------------------------------------------

    /** pids_libflags_set and pids_prep_func_array. */
    method Configure()
      requires maxitems == |items| > 1 && items[maxitems - 1] == table.logicalEnd
      requires forall i :: 0 <= i < maxitems - 1 ==> 0 <= items[i] < table.logicalEnd
      modifies this`historyYes, this`oldflags, this`funcArray
      ensures funcArray == items[..maxitems - 1] && historyYes == NeedsHistory(table, funcArray)
      ensures oldflags == Flags(table, funcArray)
    {
      historyYes, oldflags := false, {};
      var i := 0;
      assert items[..0] == [];
      while i < maxitems && items[i] < table.logicalEnd
        invariant 0 <= i <= maxitems - 1
        invariant historyYes == NeedsHistory(table, items[..i]) && oldflags == Flags(table, items[..i])
      {
        NeedsHistoryNext(table, items, i);
        assert items[..i + 1][..i] == items[..i];
        oldflags := oldflags + table.oldflags(items[i]);
        historyYes := historyYes || table.needhist(items[i]);
        i := i + 1;
      }
      funcArray := items[..maxitems - 1];
    }

    /** procps_pids_new: null stands for -EINVAL. */
    static method New(table: ItemTable, items: seq<int>) returns (info: PidsInfo?)
      ensures info == null <==> items != [] && ItemsCheckFailed(table, items)
      ensures info == null <==> exists i :: 0 <= i < |items| && (items[i] < 0 || items[i] >= table.logicalEnd)
      ensures info != null ==> fresh(info) && info.Valid() && fresh(info.Repr) && info.table == table
      ensures info != null ==> info.Abstract() == AbsNew(items)
    {
      if items != [] && ItemsCheckFailed(table, items) {
        return null;
      }
      info := new PidsInfo(table);
      hide Flags, NeedsHistory;
      if items != [] {
        info.maxitems := |items| + 1;
        info.items := items + [table.logicalEnd];
        info.Configure();
      }
    }

    /** The state as the reference sees it; the items come without their end marker. */
    ghost function Abstract(): Abs
      reads this, hist
      requires maxitems == |items|
    {
      Abs(if maxitems == 0 then [] else items[..maxitems - 1], hist.current, OpenTable(), readEither)
    }

    lemma HasItems()
      requires Valid()
      ensures maxitems == |items| && (maxitems > 0 <==> Abstract().items != [])
    {
    }

    lemma ItemsAre()
      requires Valid() && Abstract().items != []
      ensures maxitems > 0 && items == Abstract().items + [table.logicalEnd]
    {
    }

    /** The table `get` has open. */
    ghost function OpenTable(): Option<Table>
      reads this
    {
      if getExt.Some? then Some(getTable) else None
    }

    /**
     * procps_pids_get. `viaReadproc` and `viaReadeither` are what the two readers would
     * return on the open table; the one used is whichever was installed last, by this
     * function or by a fetch.
     */
    method Get(which: int, viaReadproc: Option<Proc>, viaReadeither: Option<Proc>) returns (s: Stack?)
      requires Valid()
      modifies Repr
      ensures Valid() && fresh(Repr - old(Repr)) && maxitems == old(maxitems) && items == old(items)
      ensures Abstract() == AbsGet(table, old(Abstract()), which)
      ensures !FetchType(which) || maxitems == 0 ==> s == null
      ensures FetchType(which) && maxitems > 0 ==>
                getExt.Some? &&
                var read := if readEither then viaReadeither else viaReadproc;
                if read.None? then s == null
                else s == getExt.value && Shows(table, items, getExt.value.results, read.value)
    {
      if which != TASKS_ONLY && which != THREADS_TOO {
        return null;
      }
      if maxitems == 0 {
        return null;
      }
      GetStart(which);
      var read := if readEither then viaReadeither else viaReadproc;
      if read.None? {
        return null;
      }
      GetAssign(read.value);
      s := getExt.value;
    }

    /** The part of procps_pids_get that allocates its stack and (re)opens its table. */
    method GetStart(which: int)
      requires Valid() && maxitems > 0
      modifies this`getExt, this`getTable, this`readEither, this`extents, this`Repr
      ensures Valid() && fresh(Repr - old(Repr)) && old(Repr) <= Repr
      ensures getExt.Some?
      ensures if OpenFor(old(OpenTable()), which) then getTable == old(getTable) && readEither == old(readEither)
              else getTable == Table(which, oldflags) && readEither == (which != 0)
    {
      hide Flags, NeedsHistory, Labelled, Primed, History.Valid;
      if getExt.None? {
        var ext := StacksAlloc(1);
        LivePush(ext, old(extents));
        getExt := Some(ext[0]);
        getTable := Table(which, oldflags);
        readEither := which != 0;
      }
      if getTable.kind != which {
        getTable := Table(which, oldflags);
        readEither := which != 0;
      }
    }

    method GetAssign(p: Proc)
      requires Valid() && maxitems > 0 && getExt.Some?
      modifies getExt.value
      ensures Valid() && Shows(table, items, getExt.value.results, p)
    {
      assert getExt.value in Live(extents);
      AssignResults(getExt.value, p);
    }

    /** What reap and select share: install a reader, then fetch. */
    method FetchWith(either: bool, tasks: seq<Proc>) returns (rc: int)
      requires Valid() && maxitems > 0
      modifies Repr
      ensures Valid() && fresh(Repr - old(Repr))
      ensures rc == |tasks| && Fetched(old(hist.current), tasks)
      ensures maxitems == old(maxitems) && items == old(items)
      ensures Abstract() == AbsFetch(table, old(Abstract()), either, tasks)
    {
      readEither := either;
      hide Valid, Fetched, NeedsHistory, FrameOf, Flags;
      rc := StacksFetch(tasks);
      AbstractFetched(tasks, old(hist.current));
    }

    /** procps_pids_reap: null unless at least one task was found. */
    method Reap(which: int, tasks: seq<Proc>) returns (ok: bool)
      requires Valid()
      modifies Repr
      ensures Valid() && fresh(Repr - old(Repr))
      ensures maxitems == old(maxitems) && items == old(items)
      ensures ok <==> FetchType(which) && old(maxitems) > 0 && tasks != []
      ensures ok ==> which == 0 || which == 1
      ensures if FetchType(which) && old(maxitems) > 0
              then Fetched(old(hist.current), tasks)
                   && Abstract() == AbsFetch(table, old(Abstract()), which == THREADS_TOO, tasks)
              else Abstract() == old(Abstract())
    {
      hide Valid, Fetched;
      if which != TASKS_ONLY && which != THREADS_TOO {
        return false;
      }
      if maxitems == 0 {
        return false;
      }
      var rc := FetchWith(which != 0, tasks);
      return rc > 0;
    }

    /** procps_pids_select: an empty result is a result. */
    method Select(numthese: int, which: int, tasks: seq<Proc>) returns (ok: bool)
      requires Valid()
      modifies Repr
      ensures Valid() && fresh(Repr - old(Repr))
      ensures maxitems == old(maxitems) && items == old(items)
      ensures ok <==> numthese >= 1 && SelectType(which) && old(maxitems) > 0
      ensures ok ==> which in {0x10000, 0x10001, 0x20000, 0x20001}
      ensures which in {0x10000, 0x10001, 0x20000, 0x20001} && numthese >= 1 && old(maxitems) > 0 ==> ok
      ensures if ok
              then Fetched(old(hist.current), tasks)
                   && Abstract() == AbsFetch(table, old(Abstract()), which % 2 == 1, tasks)
              else Abstract() == old(Abstract())
    {
      hide Valid, Fetched;
      if numthese < 1 {
        return false;
      }
      if !SelectType(which) {
        return false;
      }
      if maxitems == 0 {
        return false;
      }
      var rc := FetchWith(which % 2 == THREADS_TOO, tasks);
      return rc >= 0;
    }

    /** What a caller of a fetch can rely on. */
    ghost predicate Fetched(saved: seq<Rec>, tasks: seq<Proc>)
      reads this, hist, if anchor.Some? then set s | s in anchor.value else {}
    {
      nInuse == |tasks| && Exposed() && Fetching(saved, tasks)
    }

    lemma AbstractFetched(tasks: seq<Proc>, saved: seq<Rec>)
      requires Valid() && Fetched(saved, tasks)
      ensures Abstract().items == funcArray
      ensures Abstract().frame == AbsFetch(table, Abstract(), readEither, tasks).frame
    {
      assert tasks[..nInuse] == tasks;
    }

    /** procps_pids_reset */
    method Reset(newitems: seq<int>) returns (rc: int)
      requires Valid()
      modifies Repr
      ensures Valid() && Repr == old(Repr)
      ensures rc == if ItemsCheckFailed(table, newitems) then -EINVAL else 0
      ensures rc != 0 <==>
                || newitems == []
                || exists i :: 0 <= i < |newitems| && (newitems[i] < 0 || newitems[i] >= table.logicalEnd)
      ensures Abstract() == AbsReset(table, old(Abstract()), newitems)
      ensures rc == 0 ==> forall s :: s in Live(extents) ==> Zeroed(s, |newitems|)
    {
      hide Flags, NeedsHistory, Labelled, Zeroed, ItemsCheckFailed, Live, ValidStacks, ValidAnchor, History.Valid;
      CheckIs(table, newitems);
      if ItemsCheckFailed(table, newitems) {
        return -EINVAL;
      }
      CleanAndReset(newitems);
      return 0;
    }

    /** procps_pids_reset once the items are checked: nothing but zeroing when they are the same. */
    method CleanAndReset(newitems: seq<int>)
      requires ValidItems() && ValidStacks() && ValidAnchor() && !ItemsCheckFailed(table, newitems)
      requires this !in (set s: object | s in Live(extents))
      modifies this`extents, this`getExt, this`anchor, this`maxitems, this`items,
               this`historyYes, this`oldflags, this`funcArray, Live(extents)
      ensures ValidItems() && ValidStacks() && ValidAnchor() && items == newitems + [table.logicalEnd]
      ensures Live(extents) <= old(Live(extents))
      ensures OpenTable() == if old(maxitems) < |newitems| + 1 then None else old(OpenTable())
      ensures forall s :: s in Live(extents) ==> Zeroed(s, |newitems|)
    {
      hide Flags, NeedsHistory, Labelled, Zeroed, ItemsCheckFailed, ValidStacks, ValidAnchor;
      CleanupStacksAll();
      var newnumitems := |newitems|;
      if maxitems == newnumitems + 1 && items[..newnumitems] == newitems {
        return;
      }
      ResetItems(newitems);
    }

    /** The part of procps_pids_reset that discards stacks too small, and relabels the others. */
    method ResetItems(newitems: seq<int>)
      requires ValidItems() && ValidStacks() && ValidAnchor() && !ItemsCheckFailed(table, newitems)
      requires this !in (set s: object | s in Live(extents))
      requires forall s :: s in Live(extents) ==> Zeroed(s, maxitems - 1)
      modifies this`extents, this`getExt, this`anchor, this`maxitems, this`items,
               this`historyYes, this`oldflags, this`funcArray, Live(extents)
      ensures ValidItems() && ValidStacks() && ValidAnchor() && items == newitems + [table.logicalEnd]
      ensures Live(extents) <= old(Live(extents))
      ensures OpenTable() == if old(maxitems) < |newitems| + 1 then None else old(OpenTable())
      ensures forall s :: s in Live(extents) ==> Zeroed(s, |newitems|)
    {
      hide NeedsHistory, Flags, Labelled, Zeroed, ItemsCheckFailed, ValidItems, ValidStacks;
      NewItems(table, newitems);
      var newnumitems := |newitems|;
      Discard(newnumitems + 1);
      ghost var depth := maxitems;
      items := newitems + [table.logicalEnd];
      maxitems := newnumitems + 1;
      Relabel(depth);
    }

    /** Stacks that are too small are all given up. */
    method Discard(needed: nat)
      requires ValidItems() && ValidStacks() && ValidAnchor()
      requires forall s :: s in Live(extents) ==> Zeroed(s, maxitems - 1)
      modifies this`extents, this`getExt, this`anchor, this`maxitems
      ensures needed <= maxitems && ValidAnchor()
      ensures getExt == if old(maxitems) < needed then None else old(getExt)
      ensures forall s :: s in Live(extents) ==> s in old(Live(extents)) && maxitems <= |s.results|
      ensures forall s :: s in Live(extents) ==> Zeroed(s, maxitems - 1)
    {
      if maxitems < needed {
        extents := [];
        getExt := None;
        anchor := None;
        maxitems := needed;
      }
    }

    /** The last calls of procps_pids_reset: every remaining stack, then the derived settings. */
    method Relabel(ghost depth: nat)
      requires maxitems == |items| > 1 && items[maxitems - 1] == table.logicalEnd
      requires forall i :: 0 <= i < maxitems - 1 ==> 0 <= items[i] < table.logicalEnd
      requires forall s :: s in Live(extents) ==> maxitems <= depth <= |s.results|
      requires forall s :: s in Live(extents) ==> Zeroed(s, depth - 1)
      modifies this`historyYes, this`oldflags, this`funcArray, Live(extents)
      ensures ValidStacks() && ValidItems()
      ensures forall s :: s in Live(extents) ==> Zeroed(s, maxitems - 1)
    {
      ItemizeStacksAll();
      Configure();
    }
  }

  lemma LivePush(ext: seq<Stack>, extents: seq<seq<Stack>>)
    ensures Live([ext] + extents) == (set s | s in ext) + Live(extents)
  {
    forall s | s in ext
      ensures s in Live([ext] + extents)
    {
      assert ([ext] + extents)[0] == ext;
    }
    forall s | s in Live(extents)
      ensures s in Live([ext] + extents)
    {
      var e :| e in extents && s in e;
      assert e in [ext] + extents;
    }
  }

  /**
   * Any run of calls on a new context keeps every invariant, and what it leaves behind is
   * what the value-level reference says.
   */
  method Run(table: ItemTable, items: seq<int>, ops: seq<Op>) returns (info: PidsInfo?)
    ensures info == null <==> items != [] && ItemsCheckFailed(table, items)
    ensures info != null ==> fresh(info) && fresh(info.Repr) && info.table == table
    ensures info != null ==> info.Valid() && info.Abstract() == AbsRun(table, AbsNew(items), ops)
  {
    hide *;
    info := NewContext(table, items);
    if info == null {
      return;
    }
    RunEnds(table, AbsNew(items), ops);
    for k := 0 to |ops|
      invariant fresh(info.Repr) && Stands(info, table, AbsRun(table, AbsNew(items), ops[..k]))
    {
      RunStep(table, AbsNew(items), ops, k);
      RunAt(info, table, AbsRun(table, AbsNew(items), ops[..k]), ops[k]);
    }
    StandsIs(info, table, AbsRun(table, AbsNew(items), ops));
  }

  lemma RunEnds(table: ItemTable, a: Abs, ops: seq<Op>)
    ensures AbsRun(table, a, ops[..0]) == a && ops[..|ops|] == ops
  {
  }

  lemma RunStep(table: ItemTable, a: Abs, ops: seq<Op>, k: nat)
    requires k < |ops|
    ensures AbsRun(table, a, ops[..k + 1]) == AbsStep(table, AbsRun(table, a, ops[..k]), ops[k])
  {
    assert ops[..k + 1][..k] == ops[..k];
  }

  /** The context is one for this table, and its state is this. */
  ghost predicate Stands(info: PidsInfo, table: ItemTable, a: Abs)
    reads info, info.Repr
  {
    info.Valid() && info.table == table && info.Abstract() == a
  }

  lemma StandsIs(info: PidsInfo, table: ItemTable, a: Abs)
    requires Stands(info, table, a)
    ensures info.Valid() && info.table == table && info.Abstract() == a
  {
  }

  method NewContext(table: ItemTable, items: seq<int>) returns (info: PidsInfo?)
    ensures info == null <==> items != [] && ItemsCheckFailed(table, items)
    ensures info != null ==> fresh(info) && fresh(info.Repr) && Stands(info, table, AbsNew(items))
  {
    hide ItemsCheckFailed, AbsNew;
    info := PidsInfo.New(table, items);
  }

  method RunAt(info: PidsInfo, ghost table: ItemTable, ghost a: Abs, op: Op)
    requires Stands(info, table, a)
    modifies info.Repr
    ensures fresh(info.Repr - old(info.Repr)) && Stands(info, table, AbsStep(table, a, op))
  {
    hide PidsInfo.Valid, AbsStep;
    RunOne(info, op);
  }

  method RunOne(info: PidsInfo, op: Op)
    requires info.Valid()
    modifies info.Repr
    ensures info.Valid() && fresh(info.Repr - old(info.Repr))
    ensures info.Abstract() == AbsStep(info.table, old(info.Abstract()), op)
  {
    hide PidsInfo.Valid, PidsInfo.Fetched, FrameOf, NeedsHistory, Flags, ItemsCheckFailed, SelectType, Zeroed, Shows;
    info.HasItems();
    match op
    case OpReset(items) =>
      var rc := info.Reset(items);
    case OpGet(which, a, b) =>
      var s := info.Get(which, a, b);
    case OpReap(which, tasks) =>
      var ok := info.Reap(which, tasks);
    case OpSelect(n, which, tasks) =>
      var ok := info.Select(n, which, tasks);
  }

  // ----- The deltas a caller sees ----------------------------------------------------------

  /** An item whose setter shows the tics delta, and which asks for history. */
  ghost predicate TicsItem(table: ItemTable, item: int) {
    table.needhist(item) && forall p :: table.setsfunc(item, p) == TicsDelta(p)
  }

  ghost predicate ItemThroughout(table: ItemTable, items: seq<int>, ops: seq<Op>, item: int) {
    forall k :: 0 <= k <= |ops| ==> item in ItemsAfter(table, items, ops[..k])
  }

  lemma ItemNeedsHistory(table: ItemTable, items: seq<int>, ops: seq<Op>, item: int)
    requires ItemThroughout(table, items, ops, item) && TicsItem(table, item)
    ensures HistoryThroughout(table, items, ops)
  {
    hide ItemsAfter;
    forall k | 0 <= k <= |ops|
      ensures NeedsHistory(table, ItemsAfter(table, items, ops[..k]))
    {
      var now := ItemsAfter(table, items, ops[..k]);
      assert item in now;
      var i :| 0 <= i < |now| && now[i] == item;
    }
  }

  /** The tics delta in the stack that the latest fetch shows for `pid`. */
  method ReadTics(info: PidsInfo, tasks: seq<Proc>, pid: int, item: int, ghost saved: seq<Rec>)
    returns (shown: int)
    requires info.Valid() && info.Fetched(saved, tasks)
    requires item in info.Abstract().items && TicsItem(info.table, item)
    requires LastOf(FrameOf(tasks), pid) >= 0
    ensures shown == TicsDelta(WithHistory(saved, TaskOf(tasks, pid)))
  {
    hide History.Valid, PidsInfo.ValidStacks, PidsInfo.ValidAnchor, Summarises, Flags, WithHistory, TicsDelta;
    info.ItemsAre();
    var i := LastOf(FrameOf(tasks), pid);
    var j :| 0 <= j < |info.items| - 1 && info.items[j] == item;
    assert info.historyYes;
    var stack := info.results[i];
    assert Shows(info.table, info.items, stack.results, WithHistory(saved, tasks[i]));
    shown := stack.results[j].val;
  }

  /** One call, and the tics delta it shows for `pid` when it fetches. */
  method RunAndRead(info: PidsInfo, op: Op, pid: int, item: int) returns (shown: int)
    requires info.Valid()
    requires item in info.Abstract().items && TicsItem(info.table, item)
    requires Listed(info.Abstract(), op, pid)
    modifies info.Repr
    ensures info.Valid() && fresh(info.Repr - old(info.Repr))
    ensures info.Abstract() == AbsStep(info.table, old(info.Abstract()), op)
    ensures shown == DeltaShown(old(info.Abstract()), op, pid)
  {
    hide PidsInfo.Valid, PidsInfo.Fetched, FrameOf, LastOf, TaskOf, WithHistory, TicsDelta, NeedsHistory, TicsItem;
    shown := 0;
    info.ItemsAre();
    ghost var saved := info.hist.current;
    match op
    case OpReset(items) =>
      var rc := info.Reset(items);
    case OpGet(which, a, b) =>
      var s := info.Get(which, a, b);
    case OpReap(which, tasks) =>
      var ok := info.Reap(which, tasks);
      if FetchType(which) {
        shown := ReadTics(info, tasks, pid, item, saved);
      }
    case OpSelect(n, which, tasks) =>
      var ok := info.Select(n, which, tasks);
      if ok {
        shown := ReadTics(info, tasks, pid, item, saved);
      }
  }

  /**
   * Any run of calls on a context that keeps an item for the tics delta: what a caller gets by
   * adding up the values its stacks show for a task is, after call number `k`, `sums[k]`. These
   * sums are the task's latest tics counts exactly when no delta runs backwards or needs more
   * than 32 bits.
   */
  method TicsShown(table: ItemTable, items: seq<int>, ops: seq<Op>, pid: int, item: int)
    returns (info: PidsInfo?, sums: seq<int>)
    requires TicsItem(table, item) && ItemThroughout(table, items, ops, item)
    requires InEveryFetch(FetchedLists(table, items, ops), pid)
    ensures info == null <==> ItemsCheckFailed(table, items)
    ensures info != null ==>
              && |sums| == |ops| + 1
              && (forall k :: 0 <= k <= |ops| ==> SumShown(table, items, ops[..k], pid, sums[k]))
              && ((forall k :: 0 <= k <= |ops| ==> TicsAre(table, items, ops[..k], pid, sums[k]))
                  <==> FitsUnsigned(FetchedLists(table, items, ops), pid))
  {
    hide *;
    ItemFirst(table, items, ops, item);
    sums := [0];
    info := NewContext(table, items);
    if info == null {
      return;
    }
    NothingShown(table, items, ops, pid);
    for n := 0 to |ops|
      invariant fresh(info.Repr) && Stands(info, table, AbsRun(table, AbsNew(items), ops[..n]))
      invariant |sums| == n + 1
      invariant forall k :: 0 <= k <= n ==> SumShown(table, items, ops[..k], pid, sums[k])
    {
      var shown := ShowOne(info, table, items, ops, pid, item, n, sums[n]);
      sums := sums + [sums[n] + shown];
    }
    SumsExact(table, items, ops, pid, item, sums);
  }

  /** One turn of that loop. */
  method ShowOne(info: PidsInfo, ghost table: ItemTable, ghost items: seq<int>, ops: seq<Op>, pid: int, item: int,
                 n: nat, ghost sum: int)
    returns (shown: int)
    requires n < |ops| && TicsItem(table, item) && ItemThroughout(table, items, ops, item)
    requires InEveryFetch(FetchedLists(table, items, ops), pid)
    requires Stands(info, table, AbsRun(table, AbsNew(items), ops[..n]))
    requires SumShown(table, items, ops[..n], pid, sum)
    modifies info.Repr
    ensures fresh(info.Repr - old(info.Repr)) && Stands(info, table, AbsRun(table, AbsNew(items), ops[..n + 1]))
    ensures SumShown(table, items, ops[..n + 1], pid, sum + shown)
  {
    hide AbsRun, AbsStep, SumShown, Listed, DeltaShown, TicsItem, PidsInfo.Valid, FetchedLists, InEveryFetch,
         ItemsAfter;
    FetchedPrefix(table, items, ops, pid, n + 1);
    assert ops[..n + 1][..n] == ops[..n];
    ShownNext(table, items, ops[..n + 1], pid, sum);
    shown := RunAndRead(info, ops[n], pid, item);
  }

  lemma SumsExact(table: ItemTable, items: seq<int>, ops: seq<Op>, pid: int, item: int, sums: seq<int>)
    requires TicsItem(table, item) && ItemThroughout(table, items, ops, item)
    requires InEveryFetch(FetchedLists(table, items, ops), pid)
    requires |sums| == |ops| + 1
    requires forall k :: 0 <= k <= |ops| ==> SumShown(table, items, ops[..k], pid, sums[k])
    ensures (forall k :: 0 <= k <= |ops| ==> TicsAre(table, items, ops[..k], pid, sums[k]))
       <==> FitsUnsigned(FetchedLists(table, items, ops), pid)
  {
    ItemNeedsHistory(table, items, ops, item);
    ContextExact(table, items, ops, pid);
    forall k | 0 <= k <= |ops|
      ensures TicsAre(table, items, ops[..k], pid, sums[k]) <==> SumIsRight(table, items, ops[..k], pid)
    {
      hide FetchedLists, ReportedByContext, TicsAt, ItemThroughout, HistoryThroughout, InEveryFetch;
      assert SumShown(table, items, ops[..k], pid, sums[k]);
    }
    hide SumIsRight, TicsAre, FitsUnsigned;
  }

  /** `sum` is what the fetches among the calls showed for `pid`, added up. */
  ghost predicate SumShown(table: ItemTable, items: seq<int>, ops: seq<Op>, pid: int, sum: int) {
    InEveryFetch(FetchedLists(table, items, ops), pid) && sum == ReportedByContext(table, items, ops, pid)
  }

  /** `sum` is the tics count of `pid` at the latest fetch among the calls. */
  ghost predicate TicsAre(table: ItemTable, items: seq<int>, ops: seq<Op>, pid: int, sum: int) {
    var run := FetchedLists(table, items, ops);
    InEveryFetch(run, pid) && sum == TicsAt(run, pid, |run|)
  }

  lemma ItemFirst(table: ItemTable, items: seq<int>, ops: seq<Op>, item: int)
    requires ItemThroughout(table, items, ops, item)
    ensures items != []
  {
    assert ops[..0] == [] && item in ItemsAfter(table, items, ops[..0]);
  }

  lemma NothingShown(table: ItemTable, items: seq<int>, ops: seq<Op>, pid: int)
    ensures ops[..0] == [] && SumShown(table, items, ops[..0], pid, 0)
    ensures AbsRun(table, AbsNew(items), ops[..0]) == AbsNew(items)
  {
    SumsNone(table, items, pid);
  }

  /** The tics delta that one call shows for `pid`, or 0 when it does not fetch. */
  function DeltaShown(a: Abs, op: Op, pid: int): int
    requires Listed(a, op, pid)
  {
    if Fetches(op, a.items) then TicsDelta(WithHistory(a.frame, TaskOf(op.tasks, pid))) else 0
  }

  /** A call that fetches lists `pid`. */
  predicate Listed(a: Abs, op: Op, pid: int) {
    Fetches(op, a.items) ==> LastOf(FrameOf(op.tasks), pid) >= 0
  }

  /** What the run says about its last call. */
  lemma ShownNext(table: ItemTable, items: seq<int>, ops: seq<Op>, pid: int, sum: int)
    requires ops != [] && InEveryFetch(FetchedLists(table, items, ops), pid)
    requires SumShown(table, items, ops[..|ops| - 1], pid, sum)
    ensures var a, op := AbsRun(table, AbsNew(items), ops[..|ops| - 1]), ops[|ops| - 1];
            && a.items == ItemsAfter(table, items, ops[..|ops| - 1])
            && AbsRun(table, AbsNew(items), ops) == AbsStep(table, a, op)
            && Listed(a, op, pid) && SumShown(table, items, ops, pid, sum + DeltaShown(a, op, pid))
  {
    var before, op := ops[..|ops| - 1], ops[|ops| - 1];
    ReaderIs(table, items, before);
    AbsRunNext(table, AbsNew(items), ops);
    ListedLast(table, items, ops, pid, AbsRun(table, AbsNew(items), before), sum);
    hide *;
  }

  lemma ListedLast(table: ItemTable, items: seq<int>, ops: seq<Op>, pid: int, a: Abs, sum: int)
    requires ops != [] && InEveryFetch(FetchedLists(table, items, ops), pid)
    requires SumShown(table, items, ops[..|ops| - 1], pid, sum)
    requires a == AbsRun(table, AbsNew(items), ops[..|ops| - 1])
    requires a.items == ItemsAfter(table, items, ops[..|ops| - 1])
    ensures var op := ops[|ops| - 1];
            Listed(a, op, pid) && SumShown(table, items, ops, pid, sum + DeltaShown(a, op, pid))
  {
    var before, op := ops[..|ops| - 1], ops[|ops| - 1];
    FetchedNext(table, items, ops);
    hide AbsRun, ItemsAfter, FetchedLists, InEveryFetch, LastOf, FrameOf, TaskOf, WithHistory, TicsDelta, Fetches;
    if Fetches(op, a.items) {
      ReportedNext(FetchedLists(table, items, before), op.tasks, pid);
    }
  }

  lemma {:induction false} FetchedPrefix(table: ItemTable, items: seq<int>, ops: seq<Op>, pid: int, n: nat)
    requires n <= |ops| && InEveryFetch(FetchedLists(table, items, ops), pid)
    ensures InEveryFetch(FetchedLists(table, items, ops[..n]), pid)
    decreases |ops| - n
  {
    if n < |ops| {
      FetchedPrefix(table, items, ops, pid, n + 1);
      FetchedBefore(table, items, ops[..n + 1], pid);
      assert ops[..n + 1][..n] == ops[..n];
    } else {
      assert ops[..n] == ops;
    }
  }

  /**
   * The same on the object: any run and then a get, the two readers having `task` and
   * `thread` to offer.
   */
  method GetAfterRun(table: ItemTable, items: seq<int>, ops: seq<Op>, which: int, task: Proc, thread: Proc)
    returns (info: PidsInfo?, s: Stack?)
    requires FetchType(which)
    ensures info == null <==> items != [] && ItemsCheckFailed(table, items)
    ensures info != null && ItemsAfter(table, items, ops) != [] ==>
              var k, f := Opener(table, items, ops), LastFetch(table, items, ops);
              var own := !(k >= 0 && ops[k].fetchType == which && k < f
                           && Threads(ops[f]) != (which == THREADS_TOO));
              && s != null && info.items == ItemsAfter(table, items, ops) + [table.logicalEnd]
              && Shows(table, info.items, s.results, if own == (which == THREADS_TOO) then thread else task)
  {
    info := Run(table, items, ops);
    if info == null {
      return info, null;
    }
    ReaderIs(table, items, ops);
    if ItemsAfter(table, items, ops) != [] {
      OwnReader(table, items, ops, which);
      info.ItemsAre();
    }
    AbsGetItems(table, info.Abstract(), which);
    hide *;
    s := info.Get(which, Some(task), Some(thread));
  }

  lemma AbsGetItems(table: ItemTable, a: Abs, which: int)
    ensures AbsGet(table, a, which).items == a.items
  {
  }

  /** The other case happens: threads, a reap of tasks, threads again. */
  lemma ReaderTaken(table: ItemTable, items: seq<int>, first: Option<Proc>, tasks: seq<Proc>)
    requires items != []
    ensures var ops := [OpGet(THREADS_TOO, first, first), OpReap(TASKS_ONLY, tasks)];
            !AbsGet(table, AbsRun(table, AbsNew(items), ops), THREADS_TOO).either
  {
    var ops := [OpGet(THREADS_TOO, first, first), OpReap(TASKS_ONLY, tasks)];
    assert ops[..1] == [ops[0]] && [ops[0]][..0] == [];
    assert AbsRun(table, AbsNew(items), ops[..1]) == AbsStep(table, AbsNew(items), ops[0]);
  }
}
