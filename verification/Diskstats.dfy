/**
 * library/diskstats.c: the list of known devices, each with its counters from the latest
 * read and from the one before, and the time stamps by which a device that went missing
 * is told from one that did not.
 */
module Diskstats {
  import opened Options

  const STACKS_INCR: nat := 64
  /** The NULL that ends the caller's stacks, the others being numbered. */
  const NULL_STACK: int := -1

  /** A device name, compared with strcmp. */
  datatype DevName = DevName(chars: string)

  /** dev_data */
  datatype Data = Data(readsDone: nat, readsMerged: nat, readSectors: nat, readTime: nat,
                       writesDone: nat, writesMerged: nat, writeSectors: nat, writeTime: nat,
                       ioInprogress: nat, ioTime: nat, ioWtime: nat)

  /** A dev_node without its link. */
  datatype Entry = Entry(name: DevName, kind: int, major: int, minor: int, stamped: int, now: Data, was: Data)

  /** A line of the diskstats file: fourteen fields, or fewer. */
  datatype Line = Good(major: int, minor: int, name: DevName, data: Data) | Malformed

  // ----- The list as a value ------------------------------------------------------------

  /** Position of the first entry called `name`, or -1. */
  function Find(es: seq<Entry>, name: DevName): (k: int)
    ensures -1 <= k < |es|
    ensures k >= 0 ==> es[k].name == name
    ensures forall i :: 0 <= i < (if k < 0 then |es| else k) ==> es[i].name != name
  {
    if es == [] then -1
    else if es[0].name == name then 0
    else
      var k := Find(es[1..], name);
      if k < 0 then -1 else k + 1
  }

  function Lookup(es: seq<Entry>, name: DevName): Option<Entry> {
    var k := Find(es, name);
    if k < 0 then None else Some(es[k])
  }

  ghost predicate Distinct(es: seq<Entry>) {
    forall i, j :: 0 <= i < j < |es| ==> es[i].name != es[j].name
  }

  predicate Stale(e: Entry, oldStamp: int, newStamp: int) {
    e.stamped != oldStamp && e.stamped != newStamp
  }

  /** node_get: the list afterwards and where the device is, -1 when absent or dropped. */
  function Get(es: seq<Entry>, name: DevName, oldStamp: int, newStamp: int): (r: (seq<Entry>, int))
    ensures -1 <= r.1 < |r.0|
  {
    var k := Find(es, name);
    if k >= 0 && Stale(es[k], oldStamp, newStamp) then (es[..k] + es[k + 1..], -1) else (es, k)
  }

  /** node_update */
  function Update(es: seq<Entry>, source: Entry, classify: DevName -> int, oldStamp: int, newStamp: int): seq<Entry> {
    var (es', k) := Get(es, source.name, oldStamp, newStamp);
    if k < 0 then es' + [source.(was := source.now, kind := classify(source.name))]
    else es'[k := source.(was := es'[k].now, kind := es'[k].kind)]
  }

  /** What a read puts into its scratch node. */
  function SourceOf(l: Line, newStamp: int): Entry
    requires l.Good?
  {
    Entry(l.name, 0, l.major, l.minor, newStamp, l.data, Data(0, 0, 0, 0, 0, 0, 0, 0, 0, 0, 0))
  }

  /** The lines a read gets to: those in front of a malformed one. */
  function Usable(lines: seq<Line>): (r: seq<Line>)
    ensures r <= lines && forall i :: 0 <= i < |r| ==> r[i].Good?
    ensures |r| < |lines| ==> lines[|r|].Malformed?
  {
    if lines == [] || lines[0].Malformed? then [] else [lines[0]] + Usable(lines[1..])
  }

  function ReadLines(es: seq<Entry>, lines: seq<Line>, classify: DevName -> int, oldStamp: int, newStamp: int)
    : seq<Entry>
    requires forall i :: 0 <= i < |lines| ==> lines[i].Good?
  {
    if lines == [] then es
    else
      var n := |lines| - 1;
      Update(ReadLines(es, lines[..n], classify, oldStamp, newStamp), SourceOf(lines[n], newStamp),
             classify, oldStamp, newStamp)
  }

  /** The list after the first `i` lines. */
  function ReadFirst(es: seq<Entry>, lines: seq<Line>, i: nat, classify: DevName -> int, oldStamp: int, newStamp: int)
    : seq<Entry>
    requires i <= |lines| && forall k :: 0 <= k < |lines| ==> lines[k].Good?
  {
    ReadLines(es, lines[..i], classify, oldStamp, newStamp)
  }

  lemma ReadOneMore(es: seq<Entry>, lines: seq<Line>, i: nat, classify: DevName -> int, oldStamp: int, newStamp: int)
    requires i < |lines| && forall k :: 0 <= k < |lines| ==> lines[k].Good?
    ensures ReadFirst(es, lines, i + 1, classify, oldStamp, newStamp) ==
            Update(ReadFirst(es, lines, i, classify, oldStamp, newStamp), SourceOf(lines[i], newStamp),
                   classify, oldStamp, newStamp)
  {
    assert lines[..i + 1][..i] == lines[..i];
  }

  lemma ReadAll(es: seq<Entry>, lines: seq<Line>, classify: DevName -> int, oldStamp: int, newStamp: int)
    requires forall k :: 0 <= k < |lines| ==> lines[k].Good?
    ensures ReadFirst(es, lines, |lines|, classify, oldStamp, newStamp)
         == ReadLines(es, lines, classify, oldStamp, newStamp)
  {
    assert lines[..|lines|] == lines;
  }

  // ----- One read -----------------------------------------------------------------------------

  lemma LookupIs(es: seq<Entry>, name: DevName, k: nat)
    requires k < |es| && es[k].name == name && Distinct(es)
    ensures Lookup(es, name) == Some(es[k])
  {
  }

  /** Lists that agree on all entries but those called `skip`. */
  ghost predicate SameOthers(es: seq<Entry>, es': seq<Entry>, skip: DevName) {
    forall name :: name != skip ==> Lookup(es', name) == Lookup(es, name)
  }

  lemma OthersKept(es: seq<Entry>, es': seq<Entry>, skip: DevName)
    requires Distinct(es) && Distinct(es')
    requires forall e: Entry :: e.name != skip ==> (e in es <==> e in es')
    ensures SameOthers(es, es', skip)
  {
    forall name | name != skip
      ensures Lookup(es', name) == Lookup(es, name)
    {
      var j, k := Find(es, name), Find(es', name);
      if j >= 0 {
        assert es[j] in es';
      }
      if k >= 0 {
        assert es'[k] in es;
      }
    }
  }

  lemma RemovedMembers(es: seq<Entry>, k: nat, e: Entry)
    requires k < |es| && e != es[k]
    ensures e in es <==> e in es[..k] + es[k + 1..]
  {
    assert es == es[..k] + ([es[k]] + es[k + 1..]);
  }

  lemma RemovedDistinct(es: seq<Entry>, k: nat)
    requires Distinct(es) && k < |es|
    ensures var es' := es[..k] + es[k + 1..];
            Distinct(es') && forall i :: 0 <= i < |es'| ==> es'[i].name != es[k].name
  {
    var es' := es[..k] + es[k + 1..];
    assert forall i :: 0 <= i < |es'| ==> es'[i] == es[if i < k then i else i + 1];
  }

  lemma RemoveLookup(es: seq<Entry>, k: nat)
    requires Distinct(es) && k < |es|
    ensures var es' := es[..k] + es[k + 1..];
            && Distinct(es') && SameOthers(es, es', es[k].name) && Lookup(es', es[k].name) == None
  {
    hide Distinct, Find, SameOthers;
    var es' := es[..k] + es[k + 1..];
    RemovedDistinct(es, k);
    forall e: Entry | e.name != es[k].name
      ensures e in es <==> e in es'
    {
      RemovedMembers(es, k, e);
    }
    OthersKept(es, es', es[k].name);
  }

  lemma AppendLookup(es: seq<Entry>, e: Entry)
    requires Distinct(es) && Lookup(es, e.name) == None
    ensures Distinct(es + [e]) && SameOthers(es, es + [e], e.name) && Lookup(es + [e], e.name) == Some(e)
  {
    OthersKept(es, es + [e], e.name);
    LookupIs(es + [e], e.name, |es|);
  }

  lemma ReplaceLookup(es: seq<Entry>, k: nat, e: Entry)
    requires Distinct(es) && k < |es| && e.name == es[k].name
    ensures Distinct(es[k := e]) && SameOthers(es, es[k := e], e.name) && Lookup(es[k := e], e.name) == Some(e)
  {
    forall x: Entry | x.name != e.name
      ensures x in es <==> x in es[k := e]
    {
      if x in es {
        var i :| 0 <= i < |es| && es[i] == x;
        assert es[k := e][i] == x;
      }
    }
    OthersKept(es, es[k := e], e.name);
    LookupIs(es[k := e], e.name, k);
  }

  /** The device after an update: no history when it is new or comes back stale. */
  function Updated(found: Option<Entry>, source: Entry, classify: DevName -> int, oldStamp: int, newStamp: int): Entry {
    if found.None? || Stale(found.value, oldStamp, newStamp)
    then source.(was := source.now, kind := classify(source.name))
    else source.(was := found.value.now, kind := found.value.kind)
  }

  /** What a device looks like after an update, and that no other device notices. */
  lemma UpdateLookup(es: seq<Entry>, source: Entry, classify: DevName -> int, oldStamp: int, newStamp: int)
    requires Distinct(es)
    ensures var es' := Update(es, source, classify, oldStamp, newStamp);
            && Distinct(es') && SameOthers(es, es', source.name)
            && Lookup(es', source.name) ==
                 Some(Updated(Lookup(es, source.name), source, classify, oldStamp, newStamp))
  {
    hide Distinct, Find;
    var k := Find(es, source.name);
    var e := Updated(Lookup(es, source.name), source, classify, oldStamp, newStamp);
    if k < 0 {
      AppendLookup(es, e);
    } else if Stale(es[k], oldStamp, newStamp) {
      RemoveLookup(es, k);
      AppendLookup(es[..k] + es[k + 1..], e);
    } else {
      ReplaceLookup(es, k, e);
    }
  }

  // ----- A whole read --------------------------------------------------------------------------

  ghost predicate DistinctNames(lines: seq<Line>) {
    && (forall i :: 0 <= i < |lines| ==> lines[i].Good?)
    && (forall i, j :: 0 <= i < j < |lines| ==> lines[i].name != lines[j].name)
  }

  predicate Names(lines: seq<Line>, name: DevName)
    requires forall i :: 0 <= i < |lines| ==> lines[i].Good?
  {
    exists i :: 0 <= i < |lines| && lines[i].name == name
  }

  /**
   * A read exactly: a device it lists is updated once from what the list held before the
   * read, any other device stays as it is, and the read leaves one entry per name.
   */
  lemma {:induction false} ReadExact(es: seq<Entry>, lines: seq<Line>, name: DevName,
                                     classify: DevName -> int, oldStamp: int, newStamp: int)
    requires Distinct(es) && DistinctNames(lines)
    ensures var es' := ReadLines(es, lines, classify, oldStamp, newStamp);
            && Distinct(es')
            && (!Names(lines, name) ==> Lookup(es', name) == Lookup(es, name))
            && (forall i :: 0 <= i < |lines| && lines[i].name == name ==>
                  Lookup(es', name) ==
                  Some(Updated(Lookup(es, name), SourceOf(lines[i], newStamp), classify, oldStamp, newStamp)))
    decreases |lines|
  {
    if lines != [] {
      hide Distinct, Lookup, Update, Updated;
      var n := |lines| - 1;
      var last := lines[n];
      var front := lines[..n];
      var before := ReadLines(es, front, classify, oldStamp, newStamp);
      FrontLines(lines);
      ReadExact(es, front, name, classify, oldStamp, newStamp);
      UpdateLookup(before, SourceOf(last, newStamp), classify, oldStamp, newStamp);
      hide *;
      if name != last.name {
        forall i | 0 <= i < |lines| && lines[i].name == name
          ensures front[i] == lines[i]
        {
        }
      }
    }
  }

  /** The lines in front of the last one, which names another device. */
  lemma FrontLines(lines: seq<Line>)
    requires DistinctNames(lines) && lines != []
    ensures var n := |lines| - 1;
            && DistinctNames(lines[..n])
            && !Names(lines[..n], lines[n].name)
            && (forall i :: 0 <= i < n ==> lines[i].name != lines[n].name)
            && (forall name :: Names(lines, name) <==> Names(lines[..n], name) || lines[n].name == name)
  {
    var front := lines[..|lines| - 1];
    assert forall i :: 0 <= i < |front| ==> front[i] == lines[i];
    forall name | Names(lines, name) && lines[|lines| - 1].name != name
      ensures Names(front, name)
    {
      var i :| 0 <= i < |lines| && lines[i].name == name;
      assert front[i].name == name;
    }
    forall name | Names(front, name)
      ensures Names(lines, name)
    {
      var i :| 0 <= i < |front| && front[i].name == name;
      assert lines[i].name == name;
    }
  }

  /**
   * Two reads in a row, whatever the list held and whoever classifies: a device both list keeps
   * the kind it was given, and has the numbers of the second; a new one is classified.
   */
  lemma TwoReads(es: seq<Entry>, first: seq<Line>, second: seq<Line>, i: nat, j: nat, oldStamp: int, stamp: int,
                 later: int, classify: DevName -> int, reclassify: DevName -> int)
    requires Distinct(es) && DistinctNames(first) && DistinctNames(second)
    requires i < |first| && j < |second| && first[i].name == second[j].name
    ensures var name := first[i].name;
            var before := ReadLines(es, first, classify, oldStamp, stamp);
            var after := ReadLines(before, second, reclassify, stamp, later);
            var a, b := Lookup(before, name), Lookup(after, name);
            && a.Some? && a.value.major == first[i].major && a.value.minor == first[i].minor
            && b.Some? && b.value.major == second[j].major && b.value.minor == second[j].minor
            && a.value.name == b.value.name == name && b.value.kind == a.value.kind
            && (Lookup(es, name).None? ==> a.value.kind == classify(name))
  {
    var name := first[i].name;
    ReadExact(es, first, name, classify, oldStamp, stamp);
    ReadExact(ReadLines(es, first, classify, oldStamp, stamp), second, name, reclassify, stamp, later);
    hide ReadLines, Distinct, Lookup;
  }

  // ----- Runs ---------------------------------------------------------------------------------------

  /** What happens to the list: a read at some time, or a device looked up by name. */
  datatype Op = Read(stamp: int, lines: seq<Line>) | Look(name: DevName)

  datatype State = State(es: seq<Entry>, oldStamp: int, newStamp: int)

  function Step(s: State, op: Op, classify: DevName -> int): State {
    match op
    case Read(stamp, lines) =>
      State(ReadLines(s.es, Usable(lines), classify, s.newStamp, stamp), s.newStamp, stamp)
    case Look(name) => s.(es := Get(s.es, name, s.oldStamp, s.newStamp).0)
  }

  function RunOps(ops: seq<Op>, classify: DevName -> int): State {
    if ops == [] then State([], 0, 0) else Step(RunOps(ops[..|ops| - 1], classify), ops[|ops| - 1], classify)
  }

  /** The devices of the latest read of a run, none before the first one. */
  function LatestRead(ops: seq<Op>): (r: seq<Line>)
    ensures forall i :: 0 <= i < |r| ==> r[i].Good?
  {
    if ops == [] then []
    else
      match ops[|ops| - 1]
      case Read(_, lines) => Usable(lines)
      case Look(_) => LatestRead(ops[..|ops| - 1])
  }

  /** The clock moves forward between reads, and a read lists a device once. */
  ghost predicate Orderly(ops: seq<Op>, classify: DevName -> int) {
    forall k :: 0 <= k < |ops| && ops[k].Read? ==>
      ops[k].stamp > RunOps(ops[..k], classify).newStamp && DistinctNames(Usable(ops[k].lines))
  }

  /** A device carries the latest stamp exactly when the latest read listed it, with its counters. */
  ghost predicate CurrentAt(s: State, latest: seq<Line>, name: DevName)
    requires forall i :: 0 <= i < |latest| ==> latest[i].Good?
  {
    match Lookup(s.es, name)
    case None => !Names(latest, name)
    case Some(e) =>
      && e.stamped <= s.newStamp
      && (e.stamped == s.newStamp <==> Names(latest, name))
      && (forall i :: 0 <= i < |latest| && latest[i].name == name ==> e.now == latest[i].data)
  }

  ghost predicate Current(s: State, latest: seq<Line>)
    requires forall i :: 0 <= i < |latest| ==> latest[i].Good?
  {
    Distinct(s.es) && s.oldStamp <= s.newStamp && forall name :: CurrentAt(s, latest, name)
  }

  lemma ReadCurrent(s: State, stamp: int, lines: seq<Line>, latest: seq<Line>, classify: DevName -> int)
    requires forall i :: 0 <= i < |latest| ==> latest[i].Good?
    requires Current(s, latest) && stamp > s.newStamp && DistinctNames(Usable(lines))
    ensures Current(Step(s, Read(stamp, lines), classify), Usable(lines))
  {
    var usable := Usable(lines);
    var s' := Step(s, Read(stamp, lines), classify);
    forall name
      ensures CurrentAt(s', usable, name)
    {
      assert CurrentAt(s, latest, name);
      ReadExact(s.es, usable, name, classify, s.newStamp, stamp);
      hide ReadLines, Lookup, Distinct;
    }
    ReadExact(s.es, usable, DevName(""), classify, s.newStamp, stamp);
  }

  lemma LookCurrent(s: State, name: DevName, latest: seq<Line>, classify: DevName -> int)
    requires forall i :: 0 <= i < |latest| ==> latest[i].Good?
    requires Current(s, latest)
    ensures Current(Step(s, Look(name), classify), latest)
  {
    LookLookup(s, name);
    var s' := s.(es := Get(s.es, name, s.oldStamp, s.newStamp).0);
    hide Get, Distinct, Lookup;
    forall other
      ensures CurrentAt(s', latest, other)
    {
      assert CurrentAt(s, latest, other);
      if other != name {
        assert Lookup(s'.es, other) == Lookup(s.es, other);
      }
    }
  }

  lemma {:induction false} RunCurrent(ops: seq<Op>, classify: DevName -> int)
    requires Orderly(ops, classify)
    ensures Current(RunOps(ops, classify), LatestRead(ops))
    decreases |ops|
  {
    if ops != [] {
      var n := |ops| - 1;
      assert forall k :: 0 <= k <= n ==> ops[..n][..k] == ops[..k];
      assert Orderly(ops[..n], classify);
      RunCurrent(ops[..n], classify);
      match ops[n]
      case Read(stamp, lines) =>
        ReadCurrent(RunOps(ops[..n], classify), stamp, lines, LatestRead(ops[..n]), classify);
      case Look(name) =>
        LookCurrent(RunOps(ops[..n], classify), name, LatestRead(ops[..n]), classify);
    }
  }

  /**
   * Over any orderly run, whatever was looked up in between: a device in two successive
   * reads carries the counters of both; a device the previous read missed carries its new
   * counters twice, even if it existed before.
   */
  lemma DeltasSpanOneRead(ops: seq<Op>, stamp: int, lines: seq<Line>, i: nat, classify: DevName -> int)
    requires Orderly(ops, classify) && stamp > RunOps(ops, classify).newStamp
    requires DistinctNames(Usable(lines)) && i < |Usable(lines)|
    ensures var l := Usable(lines)[i];
            var previous := LatestRead(ops);
            var found := Lookup(RunOps(ops + [Read(stamp, lines)], classify).es, l.name);
            && found.Some? && found.value.now == l.data && found.value.stamped == stamp
            && (forall j :: 0 <= j < |previous| && previous[j].name == l.name ==>
                  found.value.was == previous[j].data)
            && (!Names(previous, l.name) ==> found.value.was == l.data)
  {
    RunCurrent(ops, classify);
    var s := RunOps(ops, classify);
    var name := Usable(lines)[i].name;
    assert (ops + [Read(stamp, lines)])[..|ops|] == ops;
    ReadExact(s.es, Usable(lines), name, classify, s.newStamp, stamp);
    assert CurrentAt(s, LatestRead(ops), name);
  }

  /**
   * The clock has a resolution of one second, and without an orderly clock the span can be
   * longer: three reads within one second, the middle one without the device, compare the
   * last read with the first.
   */
  lemma MissedWithinASecond(name: DevName, first: Data, last: Data, stamp: int, classify: DevName -> int)
    requires stamp > 0 && first != last
    ensures var ops := [Read(stamp, [Good(8, 0, name, first)]), Read(stamp, []), Read(stamp, [Good(8, 0, name, last)])];
            && LatestRead(ops[..2]) == []
            && var found := Lookup(RunOps(ops, classify).es, name);
               found.Some? && found.value.now == last && found.value.was == first
  {
    var a, b, c := Read(stamp, [Good(8, 0, name, first)]), Read(stamp, []), Read(stamp, [Good(8, 0, name, last)]);
    assert [a, b, c][..2] == [a, b] && [a, b][..1] == [a] && [a][..0] == [];
    var s1 := Step(State([], 0, 0), a, classify);
    assert RunOps([a], classify) == s1;
    var l := Good(8, 0, name, first);
    assert Usable([l]) == [l] && [l][..0] == [];
    assert ReadLines([], [l], classify, 0, stamp) == Update([], SourceOf(l, stamp), classify, 0, stamp);
    assert s1.es[0].now == first && |s1.es| == 1;
    var s2 := Step(s1, b, classify);
    assert RunOps([a, b], classify) == s2 && s2.es == s1.es;
    var m := Good(8, 0, name, last);
    assert Usable([m]) == [m] && [m][..0] == [];
    assert ReadLines(s2.es, [m], classify, stamp, stamp) == Update(s2.es, SourceOf(m, stamp), classify, stamp, stamp);
  }

  // ----- Runs on a clock of whole seconds ---------------------------------------------------------

  /** The clock does not run backwards, and a read lists a device once. */
  ghost predicate Steady(ops: seq<Op>) {
    forall k :: 0 <= k < |ops| && ops[k].Read? ==>
      ops[k].stamp >= LatestStamp(ops[..k]) && DistinctNames(Usable(ops[k].lines))
  }

  /** The time of the latest read, 0 before the first one. */
  function LatestStamp(ops: seq<Op>): int {
    if ops == [] then 0
    else
      match ops[|ops| - 1]
      case Read(stamp, _) => stamp
      case Look(_) => LatestStamp(ops[..|ops| - 1])
  }

  /** When a device was last listed, and with which counters. */
  datatype Seen = Never | Seen(stamp: int, data: Data)

  function LastSeen(ops: seq<Op>, name: DevName): Seen {
    if ops == [] then Never
    else
      var before := LastSeen(ops[..|ops| - 1], name);
      match ops[|ops| - 1]
      case Look(_) => before
      case Read(stamp, lines) => SeenIn(Usable(lines), stamp, name, before)
  }

  function SeenIn(lines: seq<Line>, stamp: int, name: DevName, before: Seen): (r: Seen)
    requires forall i :: 0 <= i < |lines| ==> lines[i].Good?
    ensures !Names(lines, name) ==> r == before
    ensures Names(lines, name) ==>
              exists i :: 0 <= i < |lines| && lines[i].name == name && r == Seen(stamp, lines[i].data)
  {
    if lines == [] then before
    else if lines[|lines| - 1].name == name then Seen(stamp, lines[|lines| - 1].data)
    else
      var front := lines[..|lines| - 1];
      assert forall i :: 0 <= i < |front| ==> front[i] == lines[i];
      SeenIn(front, stamp, name, before)
  }

  /** The list holds what was last seen, unless that is older than the two latest reads. */
  ghost predicate RemembersAt(s: State, seen: Seen, name: DevName) {
    && (seen.Seen? ==> seen.stamp == s.newStamp || seen.stamp <= s.oldStamp)
    && match Lookup(s.es, name)
       case None => seen.Never? || (seen.stamp < s.oldStamp && seen.stamp != s.newStamp)
       case Some(e) => seen == Seen(e.stamped, e.now)
  }

  ghost predicate Remembers(s: State, ops: seq<Op>) {
    && Distinct(s.es) && s.oldStamp <= s.newStamp == LatestStamp(ops)
    && forall name :: RemembersAt(s, LastSeen(ops, name), name)
  }

  /** The history of one device after a read, whatever its age. */
  lemma ReadRemembers(s: State, stamp: int, lines: seq<Line>, seen: Seen, name: DevName, classify: DevName -> int)
    requires Distinct(s.es) && s.oldStamp <= s.newStamp <= stamp && DistinctNames(lines)
    requires RemembersAt(s, seen, name)
    ensures var es := ReadLines(s.es, lines, classify, s.newStamp, stamp);
            && RemembersAt(State(es, s.newStamp, stamp), SeenIn(lines, stamp, name, seen), name)
            && forall i :: 0 <= i < |lines| && lines[i].name == name ==>
                 var found := Lookup(es, name);
                 && found.Some? && found.value.now == lines[i].data && found.value.stamped == stamp
                 && found.value.was == if seen.Never? || seen.stamp < s.newStamp then lines[i].data else seen.data
  {
    ReadExact(s.es, lines, name, classify, s.newStamp, stamp);
    hide ReadLines, Lookup, Distinct, SeenIn;
  }

  lemma {:induction false} RunRemembers(ops: seq<Op>, classify: DevName -> int)
    requires Steady(ops)
    ensures Remembers(RunOps(ops, classify), ops)
    decreases |ops|
  {
    if ops == [] {
    } else {
      var n := |ops| - 1;
      var before := ops[..n];
      assert Steady(before) by {
        assert forall k :: 0 <= k <= n ==> before[..k] == ops[..k];
      }
      RunRemembers(before, classify);
      var s := RunOps(before, classify);
      assert ops == before + [ops[n]];
      hide Remembers;
      match ops[n]
      case Read(stamp, lines) =>
        ReadKeepsMemory(s, before, stamp, lines, classify);
      case Look(name) =>
        LookKeepsMemory(s, before, name, classify);
    }
  }

  lemma ReadKeepsMemory(s: State, before: seq<Op>, stamp: int, lines: seq<Line>, classify: DevName -> int)
    requires Remembers(s, before) && stamp >= s.newStamp && DistinctNames(Usable(lines))
    ensures Remembers(Step(s, Read(stamp, lines), classify), before + [Read(stamp, lines)])
  {
    var usable, ops := Usable(lines), before + [Read(stamp, lines)];
    var s' := Step(s, Read(stamp, lines), classify);
    assert ops[..|before|] == before;
    ReadExact(s.es, usable, DevName(""), classify, s.newStamp, stamp);
    forall name
      ensures RemembersAt(s', LastSeen(ops, name), name)
    {
      ReadRemembers(s, stamp, usable, LastSeen(before, name), name, classify);
    }
  }

  lemma LookKeepsMemory(s: State, before: seq<Op>, name: DevName, classify: DevName -> int)
    requires Remembers(s, before)
    ensures Remembers(Step(s, Look(name), classify), before + [Look(name)])
  {
    var ops := before + [Look(name)];
    assert ops[..|before|] == before;
    LookLookup(s, name);
    var s' := s.(es := Get(s.es, name, s.oldStamp, s.newStamp).0);
    hide Get, Distinct, Lookup;
    forall other
      ensures RemembersAt(s', LastSeen(ops, other), other)
    {
      assert RemembersAt(s, LastSeen(before, other), other);
      if other != name {
        assert Lookup(s'.es, other) == Lookup(s.es, other);
      }
    }
  }

  /** A lookup by name drops the device when it is stale, and nothing else. */
  lemma LookLookup(s: State, name: DevName)
    requires Distinct(s.es)
    ensures var es := Get(s.es, name, s.oldStamp, s.newStamp).0;
            var found := Lookup(s.es, name);
            && Distinct(es) && SameOthers(s.es, es, name)
            && Lookup(es, name) ==
                 if found.Some? && Stale(found.value, s.oldStamp, s.newStamp) then None else found
  {
    hide Distinct, Find;
    var k := Find(s.es, name);
    if k >= 0 && Stale(s.es[k], s.oldStamp, s.newStamp) {
      RemoveLookup(s.es, k);
    }
  }

  /**
   * What a device's old counters are after a read, exactly: those it was last listed with,
   * unless that was before the second of the previous read; then, and when it was never
   * listed, they are the new counters.
   */
  lemma HistoryExact(ops: seq<Op>, stamp: int, lines: seq<Line>, i: nat, classify: DevName -> int)
    requires Steady(ops) && stamp >= LatestStamp(ops)
    requires DistinctNames(Usable(lines)) && i < |Usable(lines)|
    ensures var l := Usable(lines)[i];
            var found := Lookup(RunOps(ops + [Read(stamp, lines)], classify).es, l.name);
            var seen := LastSeen(ops, l.name);
            && found.Some? && found.value.now == l.data
            && found.value.was == if seen.Never? || seen.stamp < LatestStamp(ops) then l.data else seen.data
  {
    RunRemembers(ops, classify);
    var s, name := RunOps(ops, classify), Usable(lines)[i].name;
    assert (ops + [Read(stamp, lines)])[..|ops|] == ops;
    assert RemembersAt(s, LastSeen(ops, name), name);
    ReadRemembers(s, stamp, Usable(lines), LastSeen(ops, name), name, classify);
  }

  /**
   * A device the previous read missed starts afresh exactly when it was never listed before,
   * or last in an earlier second than that of the previous read, or its counters are as they
   * were then.
   */
  lemma StartsAfresh(ops: seq<Op>, stamp: int, lines: seq<Line>, i: nat, classify: DevName -> int)
    requires Steady(ops) && stamp >= LatestStamp(ops)
    requires DistinctNames(Usable(lines)) && i < |Usable(lines)|
    requires !Names(LatestRead(ops), Usable(lines)[i].name)
    ensures var l := Usable(lines)[i];
            var found := Lookup(RunOps(ops + [Read(stamp, lines)], classify).es, l.name);
            var seen := LastSeen(ops, l.name);
            && found.Some?
            && (found.value.was == found.value.now <==>
                 seen.Never? || seen.stamp < LatestStamp(ops) || seen.data == l.data)
  {
    HistoryExact(ops, stamp, lines, i, classify);
  }

  // ----- Runs on any clock ---------------------------------------------------------------------------

  /** A read lists a device once. */
  ghost predicate ListedOnce(ops: seq<Op>) {
    forall k :: 0 <= k < |ops| && ops[k].Read? ==> DistinctNames(Usable(ops[k].lines))
  }

  /** The time of the read before the latest one. */
  function PreviousStamp(ops: seq<Op>): int {
    if ops == [] then 0
    else
      match ops[|ops| - 1]
      case Read(_, _) => LatestStamp(ops[..|ops| - 1])
      case Look(_) => PreviousStamp(ops[..|ops| - 1])
  }

  /**
   * What is still remembered of a device: when and with what it was last listed, until a
   * lookup of it by name finds that to be the time of neither of the two latest reads.
   */
  function Kept(ops: seq<Op>, name: DevName): Seen {
    if ops == [] then Never
    else
      var before := ops[..|ops| - 1];
      var kept := Kept(before, name);
      match ops[|ops| - 1]
      case Read(stamp, lines) => SeenIn(Usable(lines), stamp, name, kept)
      case Look(looked) =>
        if looked == name && kept.Seen? && kept.stamp != PreviousStamp(before) && kept.stamp != LatestStamp(before)
        then Never else kept
  }

  ghost predicate KeptAt(s: State, kept: Seen, name: DevName) {
    match Lookup(s.es, name)
    case None => kept.Never?
    case Some(e) => kept == Seen(e.stamped, e.now)
  }

  ghost predicate Keeps(s: State, ops: seq<Op>) {
    && Distinct(s.es) && s.oldStamp == PreviousStamp(ops) && s.newStamp == LatestStamp(ops)
    && forall name :: KeptAt(s, Kept(ops, name), name)
  }

  /** What a read makes of a device. */
  lemma ReadKept(s: State, stamp: int, lines: seq<Line>, kept: Seen, name: DevName, classify: DevName -> int)
    requires Distinct(s.es) && DistinctNames(lines) && KeptAt(s, kept, name)
    ensures var es := ReadLines(s.es, lines, classify, s.newStamp, stamp);
            && KeptAt(State(es, s.newStamp, stamp), SeenIn(lines, stamp, name, kept), name)
            && forall i :: 0 <= i < |lines| && lines[i].name == name ==>
                 var found := Lookup(es, name);
                 && found.Some? && found.value.now == lines[i].data && found.value.stamped == stamp
                 && found.value.was == if kept.Never? || (kept.stamp != s.newStamp && kept.stamp != stamp)
                                       then lines[i].data else kept.data
  {
    ReadExact(s.es, lines, name, classify, s.newStamp, stamp);
    hide ReadLines, Lookup, Distinct, SeenIn;
  }

  /** Whatever the clock does, the list holds exactly what is still remembered. */
  lemma {:induction false} RunKeeps(ops: seq<Op>, classify: DevName -> int)
    requires ListedOnce(ops)
    ensures Keeps(RunOps(ops, classify), ops)
    decreases |ops|
  {
    if ops != [] {
      var n := |ops| - 1;
      var before := ops[..n];
      RunKeeps(before, classify);
      var s := RunOps(before, classify);
      assert ops == before + [ops[n]];
      hide Keeps;
      match ops[n]
      case Read(stamp, lines) =>
        ReadKeeps(s, before, stamp, lines, classify);
      case Look(name) =>
        LookKeeps(s, before, name, classify);
    }
  }

  lemma ReadKeeps(s: State, before: seq<Op>, stamp: int, lines: seq<Line>, classify: DevName -> int)
    requires Keeps(s, before) && DistinctNames(Usable(lines))
    ensures Keeps(Step(s, Read(stamp, lines), classify), before + [Read(stamp, lines)])
  {
    var usable, ops := Usable(lines), before + [Read(stamp, lines)];
    var s' := Step(s, Read(stamp, lines), classify);
    assert ops[..|before|] == before;
    ReadExact(s.es, usable, DevName(""), classify, s.newStamp, stamp);
    forall name
      ensures KeptAt(s', Kept(ops, name), name)
    {
      ReadKept(s, stamp, usable, Kept(before, name), name, classify);
    }
  }

  lemma LookKeeps(s: State, before: seq<Op>, name: DevName, classify: DevName -> int)
    requires Keeps(s, before)
    ensures Keeps(Step(s, Look(name), classify), before + [Look(name)])
  {
    var ops := before + [Look(name)];
    assert ops[..|before|] == before;
    LookLookup(s, name);
    var s' := s.(es := Get(s.es, name, s.oldStamp, s.newStamp).0);
    hide Get, Distinct, Lookup;
    forall other
      ensures KeptAt(s', Kept(ops, other), other)
    {
      assert KeptAt(s, Kept(before, other), other);
      if other != name {
        assert Lookup(s'.es, other) == Lookup(s.es, other);
      }
    }
  }

  /**
   * On any clock, what a device's old counters are after a read: those still remembered of it,
   * unless they date from neither the second of this read nor that of the previous one; then,
   * and when nothing is remembered, they are the new counters.
   */
  lemma HistoryOnAnyClock(ops: seq<Op>, stamp: int, lines: seq<Line>, i: nat, classify: DevName -> int)
    requires ListedOnce(ops) && DistinctNames(Usable(lines)) && i < |Usable(lines)|
    ensures var l := Usable(lines)[i];
            var found := Lookup(RunOps(ops + [Read(stamp, lines)], classify).es, l.name);
            var kept := Kept(ops, l.name);
            && found.Some? && found.value.now == l.data
            && found.value.was == if kept.Never? || (kept.stamp != LatestStamp(ops) && kept.stamp != stamp)
                                  then l.data else kept.data
  {
    RunKeeps(ops, classify);
    var s, name := RunOps(ops, classify), Usable(lines)[i].name;
    assert (ops + [Read(stamp, lines)])[..|ops|] == ops;
    assert KeptAt(s, Kept(ops, name), name);
    ReadKept(s, stamp, Usable(lines), Kept(ops, name), name, classify);
  }

  /**
   * On any clock, a device the previous read missed starts afresh exactly when nothing is
   * remembered of it, or something from neither of these two seconds, or its counters are as
   * they were then.
   */
  lemma AfreshOnAnyClock(ops: seq<Op>, stamp: int, lines: seq<Line>, i: nat, classify: DevName -> int)
    requires ListedOnce(ops) && DistinctNames(Usable(lines)) && i < |Usable(lines)|
    requires !Names(LatestRead(ops), Usable(lines)[i].name)
    ensures var l := Usable(lines)[i];
            var found := Lookup(RunOps(ops + [Read(stamp, lines)], classify).es, l.name);
            var kept := Kept(ops, l.name);
            && found.Some?
            && (found.value.was == found.value.now <==>
                 kept.Never? || (kept.stamp != LatestStamp(ops) && kept.stamp != stamp) || kept.data == l.data)
  {
    HistoryOnAnyClock(ops, stamp, lines, i, classify);
  }

  /** The other case on a clock that steps back: missed by any number of reads, and compared all the same. */
  lemma SteppedBack(name: DevName, first: Data, last: Data, times: seq<int>, stamp: int, classify: DevName -> int)
    requires first != last
    ensures var ops := [Read(stamp, [Good(8, 0, name, first)])] + Missing(times);
            && LatestRead(ops) == (if times == [] then [Good(8, 0, name, first)] else [])
            && var found := Lookup(RunOps(ops + [Read(stamp, [Good(8, 0, name, last)])], classify).es, name);
               found.Some? && found.value.now == last && found.value.was == first
  {
    var ops := [Read(stamp, [Good(8, 0, name, first)])] + Missing(times);
    MissedReads(name, first, times, stamp);
    var l := Good(8, 0, name, last);
    assert Usable([l]) == [l];
    HistoryOnAnyClock(ops, stamp, [l], 0, classify);
  }

  /** Reads at these times that list nothing. */
  function Missing(times: seq<int>): (r: seq<Op>)
    ensures |r| == |times| && forall k :: 0 <= k < |r| ==> r[k] == Read(times[k], [])
  {
    seq(|times|, k requires 0 <= k < |times| => Read(times[k], []))
  }

  lemma {:induction false} MissedReads(name: DevName, data: Data, times: seq<int>, stamp: int)
    ensures var ops := [Read(stamp, [Good(8, 0, name, data)])] + Missing(times);
            && ListedOnce(ops) && Kept(ops, name) == Seen(stamp, data)
            && LatestRead(ops) == if times == [] then [Good(8, 0, name, data)] else []
    decreases |times|
  {
    var l := Good(8, 0, name, data);
    assert Usable([l]) == [l];
    var ops := [Read(stamp, [l])] + Missing(times);
    if times == [] {
      assert ops == [Read(stamp, [l])] && ops[..0] == [];
      assert SeenIn([l], stamp, name, Never) == Seen(stamp, data);
    } else {
      var n := |times| - 1;
      MissedReads(name, data, times[..n], stamp);
      assert ops[..|ops| - 1] == [Read(stamp, [l])] + Missing(times[..n]);
      assert ops[|ops| - 1] == Read(times[n], []);
    }
  }

  // ----- The linked list ------------------------------------------------------------------------------

  class DevNode {
    var entry: Entry
    var next: DevNode?

    /** malloc and memcpy */
    constructor (entry: Entry)
      ensures this.entry == entry && next == null
    {
      this.entry := entry;
      next := null;
    }
  }

  /** The entries of a list of nodes. */
  ghost function ViewOf(list: seq<DevNode>): (r: seq<Entry>)
    reads list
    ensures |r| == |list| && forall i :: 0 <= i < |r| ==> r[i] == list[i].entry
  {
    seq(|list|, i requires 0 <= i < |list| reads list => list[i].entry)
  }

  lemma ViewCut(list: seq<DevNode>, was: seq<Entry>, k: nat)
    requires |was| == |list| && k < |list| && forall i :: 0 <= i < |list| ==> was[i] == list[i].entry
    ensures ViewOf(list[..k] + list[k + 1..]) == was[..k] + was[k + 1..]
  {
  }

  /** Node number `i`, or NULL past the end. */
  ghost function At(list: seq<DevNode>, i: nat): DevNode? {
    if i < |list| then list[i] else null
  }

  class Info {
    var nodes: DevNode?
    var oldStamp: int
    var newStamp: int
    /** What each stack of the anchor shows, and which of them the caller is shown. */
    var anchor: array<Entry>
    var nInuse: nat
    var results: array<int>
    /** The nodes reachable from `nodes`, in order. */
    ghost var list: seq<DevNode>
    ghost var Repr: set<DevNode>

    ghost predicate Valid()
      reads `nodes, `list, `Repr, Repr
    {
      && (forall i :: 0 <= i < |list| ==> list[i] in Repr)
      && nodes == At(list, 0)
      && (forall i: nat :: i < |list| ==> list[i].next == At(list, i + 1))
      && (forall i, j :: 0 <= i < j < |list| ==> list[i] != list[j])
    }

    ghost function View(): seq<Entry>
      reads `list, list
    {
      ViewOf(list)
    }

    constructor ()
      ensures Valid() && list == [] && View() == [] && Repr == {} && oldStamp == newStamp == 0
    {
      nodes, oldStamp, newStamp, list, Repr := null, 0, 0, [], {};
      anchor, nInuse, results := new Entry[0], 0, new int[0];
    }

    /** node_add: append. */
    method NodeAdd(node: DevNode)
      requires Valid() && node !in list && node.next == null
      modifies this`nodes, this`list, this`Repr, Repr
      ensures Valid() && Repr == old(Repr) + {node} && list == old(list) + [node]
      ensures View() == old(View()) + [node.entry]
    {
      if nodes == null {
        nodes := node;
      } else {
        var walk: DevNode? := nodes;
        var prev := nodes;
        ghost var k: nat := 0;
        while walk != null
          invariant 0 <= k <= |list| && walk == At(list, k)
          invariant k > 0 ==> prev == list[k - 1]
          decreases |list| - k
        {
          prev := walk;
          walk := walk.next;
          k := k + 1;
        }
        prev.next := node;
      }
      list := list + [node];
      Repr := Repr + {node};
    }

    /** Where a node is: its position, or -1 for NULL and for a node of no or another list. */
    ghost predicate IsAt(node: DevNode?, k: int)
      reads this
    {
      -1 <= k < |list| && (k >= 0 ==> node == list[k]) && (k < 0 ==> node == null || node !in list)
    }

    /** The loop of node_cut: the node that links to the one at position `k`, NULL when none does. */
    method NodeBefore(node: DevNode, ghost k: int) returns (walk: DevNode?)
      requires Valid() && IsAt(node, k) && k != 0 && list != []
      ensures walk == if k < 0 then null else list[k - 1]
    {
      walk := nodes;
      ghost var i: nat := 0;
      while walk != null
        invariant 0 <= i <= |list| && walk == At(list, i) && (k > 0 ==> i < k)
        decreases |list| - i
      {
        if node == walk.next {
          return;
        }
        walk := walk.next;
        i := i + 1;
      }
    }

    /**
     * node_cut. A node other than NULL may only be looked for in a list that is not empty:
     * the loop looks at its first node without a test.
     */
    method NodeCut(node: DevNode?, ghost k: int) returns (cut: DevNode?)
      requires Valid() && IsAt(node, k) && (node != null ==> list != [])
      modifies this`nodes, this`list, Repr`next
      ensures Valid() && cut == if k < 0 then null else node
      ensures list == if k < 0 then old(list) else old(list)[..k] + old(list)[k + 1..]
    {
      cut := null;
      InRepr();
      hide Valid;
      if node != null {
        WhereIs(node, k);
        if node == nodes {
          CutFirst(node);
          return node;
        }
        var walk := NodeBefore(node, k);
        if walk != null {
          CutBehind(walk, k);
          return node;
        }
      }
    }

    lemma InRepr()
      requires Valid()
      ensures forall i :: 0 <= i < |list| ==> list[i] in Repr
    {
    }

    lemma WhereIs(node: DevNode, k: int)
      requires Valid() && IsAt(node, k)
      ensures node == nodes <==> k == 0
    {
    }

    /** The node is the first one. */
    method CutFirst(node: DevNode)
      requires Valid() && list != [] && node == list[0]
      modifies this`nodes, this`list
      ensures Valid() && list == old(list)[..0] + old(list)[1..]
    {
      nodes := node.next;
      list := list[1..];
    }

    /** The node is the one behind `walk`. */
    method CutBehind(walk: DevNode, ghost k: nat)
      requires Valid() && 0 < k < |list| && walk == list[k - 1]
      modifies this`list, walk`next
      ensures Valid() && list == old(list)[..k] + old(list)[k + 1..]
    {
      walk.next := walk.next.next;
      Unlinked(list, k);
      list := list[..k] + list[k + 1..];
    }

    lemma Unlinked(list: seq<DevNode>, k: nat)
      requires 0 < k < |list|
      requires forall i, j :: 0 <= i < j < |list| ==> list[i] != list[j]
      requires forall i: nat :: i < |list| && i != k - 1 ==> list[i].next == At(list, i + 1)
      requires list[k - 1].next == At(list, k + 1)
      ensures var cut := list[..k] + list[k + 1..];
              && (forall i: nat :: i < |cut| ==> cut[i].next == At(cut, i + 1))
              && (forall i, j :: 0 <= i < j < |cut| ==> cut[i] != cut[j])
    {
      var cut := list[..k] + list[k + 1..];
      forall i: nat | i < |cut|
        ensures cut[i].next == At(cut, i + 1)
      {
        assert cut[i] == list[if i < k then i else i + 1];
      }
    }

    /** node_cut and free. */
    method NodeDrop(node: DevNode, ghost k: nat)
      requires Valid() && k < |list| && list[k] == node
      modifies this`nodes, this`list, Repr`next
      ensures Valid() && View() == old(View())[..k] + old(View())[k + 1..]
    {
      ghost var before, was := list, View();
      var cut := NodeCut(node, k);
      hide Valid;
      assert forall i :: 0 <= i < |before| ==> was[i] == before[i].entry;
      hide *;
      ViewCut(before, was, k);
    }

    /** The search in node_get. */
    method NodeSearch(name: DevName) returns (node: DevNode?)
      requires Valid()
      ensures var k := Find(View(), name); k < |list| && node == if k < 0 then null else list[k]
    {
      node := nodes;
      ghost var k: nat := 0;
      while node != null
        invariant 0 <= k <= |list| && node == At(list, k)
        invariant forall i :: 0 <= i < k ==> list[i].entry.name != name
        decreases |list| - k
      {
        if node.entry.name == name {
          break;
        }
        node := node.next;
        k := k + 1;
      }
      FindIs(View(), name, if node == null then -1 else k);
    }

    /** node_get */
    method NodeGet(name: DevName) returns (node: DevNode?)
      requires Valid()
      modifies this`nodes, this`list, Repr
      ensures Valid()
      ensures var (es, k) := Get(old(View()), name, oldStamp, newStamp);
              View() == es && node == if k < 0 then null else list[k]
    {
      hide *;
      node := NodeSearch(name);
      ghost var k := Find(View(), name);
      GetIs(View(), name, oldStamp, newStamp);
      if node != null {
        NodeIs(node, k);
        if node.entry.stamped != oldStamp && node.entry.stamped != newStamp {
          NodeDrop(node, k);
          node := null;
        }
      }
    }

    /** node_get on values. */
    static lemma GetIs(es: seq<Entry>, name: DevName, oldStamp: int, newStamp: int)
      ensures var k := Find(es, name);
              && -1 <= k < |es|
              && Get(es, name, oldStamp, newStamp) ==
                   if k >= 0 && es[k].stamped != oldStamp && es[k].stamped != newStamp
                   then (es[..k] + es[k + 1..], -1) else (es, k)
    {
    }

    /** A new node at the end of the list, without history. */
    method NodeNew(source: Entry, classify: DevName -> int)
      requires Valid()
      modifies this`nodes, this`list, this`Repr, Repr
      ensures Valid() && fresh(Repr - old(Repr))
      ensures View() == old(View()) + [source.(was := source.now, kind := classify(source.name))]
    {
      var target := new DevNode(source.(was := source.now));
      target.entry := target.entry.(kind := classify(source.name));
      assert View() == old(View());
      hide *;
      NodeAdd(target);
    }

    /** The node at position `k` gets a new entry. */
    method NodeSet(target: DevNode, ghost k: nat, entry: Entry)
      requires Valid() && k < |list| && list[k] == target
      modifies target`entry
      ensures Valid() && View() == old(View())[k := entry]
    {
      target.entry := entry;
      assert View() == old(View())[k := entry];
    }

    /** node_update; `classify` is what /sys/block says of a new device. */
    method NodeUpdate(source: Entry, classify: DevName -> int)
      requires Valid()
      modifies this`nodes, this`list, this`Repr, Repr
      ensures Valid() && fresh(Repr - old(Repr))
      ensures View() == Update(old(View()), source, classify, oldStamp, newStamp)
    {
      hide Get, ViewOf, Valid;
      ghost var got := Get(View(), source.name, oldStamp, newStamp);
      var target := NodeGet(source.name);
      if target == null {
        NodeNew(source, classify);
        return;
      }
      NodeIs(target, got.1);
      NodeSet(target, got.1, source.(was := target.entry.now, kind := target.entry.kind));
    }

    lemma NodeIs(target: DevNode, k: nat)
      requires Valid() && k < |list| && list[k] == target
      ensures target in Repr && View()[k] == target.entry
    {
    }

    /** The list after the first `i` lines of a read that found it as `start`. */
    ghost predicate Reading(start: seq<Entry>, lines: seq<Line>, classify: DevName -> int, i: nat)
      reads `list, `oldStamp, `newStamp, list
    {
      i <= |Usable(lines)| && View() == ReadFirst(start, Usable(lines), i, classify, oldStamp, newStamp)
    }

    /** One line. */
    method ReadOne(ghost start: seq<Entry>, lines: seq<Line>, classify: DevName -> int, i: nat)
      requires Valid() && Reading(start, lines, classify, i) && i < |lines| && lines[i].Good?
      modifies this`nodes, this`list, this`Repr, Repr
      ensures Valid() && fresh(Repr - old(Repr)) && Reading(start, lines, classify, i + 1)
    {
      UsableGoesOn(lines, i);
      ReadOneMore(start, Usable(lines), i, classify, oldStamp, newStamp);
      hide Valid, Update, ReadFirst, ViewOf, Usable, SourceOf;
      NodeUpdate(SourceOf(lines[i], newStamp), classify);
    }

    /** Where reading stops, the list is that of the whole read. */
    lemma ReadingEnds(start: seq<Entry>, lines: seq<Line>, classify: DevName -> int, i: nat)
      requires Reading(start, lines, classify, i) && i <= |lines| && (i < |lines| ==> lines[i].Malformed?)
      ensures View() == ReadLines(start, Usable(lines), classify, oldStamp, newStamp)
      ensures i == |lines| <==> forall k :: 0 <= k < |lines| ==> lines[k].Good?
    {
      var usable := Usable(lines);
      assert i == |usable|;
      ReadAll(start, usable, classify, oldStamp, newStamp);
      if i == |lines| {
        UsableAll(lines);
      }
    }

    lemma ReadingStarts(lines: seq<Line>, classify: DevName -> int)
      ensures Reading(View(), lines, classify, 0)
    {
      assert Usable(lines)[..0] == [];
    }

    /** diskstats_read_failed, the clock and the file's lines being given. */
    method ReadFailed(time: int, lines: seq<Line>, classify: DevName -> int) returns (failed: bool)
      requires Valid()
      modifies this`nodes, this`list, this`Repr, this`oldStamp, this`newStamp, Repr
      ensures Valid() && fresh(Repr - old(Repr))
      ensures oldStamp == old(newStamp) && newStamp == time
      ensures failed <==> exists i :: 0 <= i < |lines| && lines[i].Malformed?
      ensures View() == ReadLines(old(View()), Usable(lines), classify, oldStamp, newStamp)
    {
      hide *;
      oldStamp := newStamp;
      newStamp := time;
      ghost var start := View();
      var i := 0;
      ReadingStarts(lines, classify);
      while i < |lines|
        invariant 0 <= i <= |lines| && Valid()
        invariant oldStamp == old(newStamp) && newStamp == time
        invariant fresh(Repr - old(Repr)) && Reading(start, lines, classify, i)
      {
        if lines[i].Malformed? {
          ReadingEnds(start, lines, classify, i);
          return true;
        }
        ReadOne(start, lines, classify, i);
        i := i + 1;
      }
      ReadingEnds(start, lines, classify, i);
      return false;
    }

    /** realloc of the anchor: the new stacks show anything. */
    method GrowAnchor()
      modifies this`anchor
      ensures fresh(anchor) && anchor.Length == old(anchor.Length) + STACKS_INCR
      ensures anchor[..old(anchor.Length)] == old(anchor[..])
    {
      var bigger := new Entry[anchor.Length + STACKS_INCR];
      forall i | 0 <= i < anchor.Length {
        bigger[i] := anchor[i];
      }
      anchor := bigger;
    }

    /** The first `n` stacks show the first `n` nodes. */
    ghost predicate AnchorShows(n: nat)
      reads this, anchor, list
    {
      n <= |list| && n <= anchor.Length && forall i :: 0 <= i < n ==> anchor[i] == list[i].entry
    }

    /** One turn of the walk: room for one more stack, and its values. */
    method ShowNode(node: DevNode)
      requires Valid() && nInuse < |list| && node == list[nInuse] && AnchorShows(nInuse)
      modifies this`anchor, this`nInuse, anchor
      ensures Valid() && (anchor == old(anchor) || fresh(anchor))
      ensures nInuse == old(nInuse) + 1 && AnchorShows(nInuse)
    {
      hide Valid;
      if !(nInuse < anchor.Length) {
        ghost var full := anchor;
        GrowAnchor();
        assert forall i :: 0 <= i < nInuse ==> anchor[i] == anchor[..full.Length][i] == full[i];
      }
      anchor[nInuse] := node.entry;
      nInuse := nInuse + 1;
    }

    /** The walk of diskstats_stacks_fetch: stack number i shows node number i. */
    method FillAnchor()
      requires Valid()
      modifies this`anchor, this`nInuse, anchor
      ensures Valid() && (anchor == old(anchor) || fresh(anchor))
      ensures nInuse == |list| && AnchorShows(nInuse)
    {
      if anchor.Length == 0 {
        GrowAnchor();
      }
      nInuse := 0;
      var node := nodes;
      NodeAfter(0);
      hide Valid, AnchorShows;
      while node != null
        invariant Valid() && nInuse <= |list| && node == At(list, nInuse) && AnchorShows(nInuse)
        invariant anchor == old(anchor) || fresh(anchor)
        decreases |list| - nInuse
      {
        NodeAfter(nInuse);
        ShowNode(node);
        node := node.next;
      }
    }

    lemma NodeAfter(k: nat)
      requires Valid()
      ensures nodes == At(list, 0) && (k < |list| ==> list[k].next == At(list, k + 1))
    {
    }

    /** The last lines of diskstats_stacks_fetch: the stacks in use, and a NULL. */
    method Expose()
      modifies this`results, results
      ensures nInuse < results.Length && results[nInuse] == NULL_STACK
      ensures forall i :: 0 <= i < nInuse ==> results[i] == i
    {
      if results.Length < nInuse + 1 {
        results := new int[nInuse + 1];
      }
      forall i | 0 <= i < nInuse {
        results[i] := i;
      }
      results[nInuse] := NULL_STACK;
    }

    /** diskstats_stacks_fetch: the caller is shown one stack per node, in list order. */
    method StacksFetch() returns (n: nat)
      requires Valid()
      modifies this`anchor, this`nInuse, this`results, anchor, results
      ensures Valid() && n == nInuse == |list| && AnchorShows(n)
      ensures n < results.Length && results[n] == NULL_STACK
      ensures forall i :: 0 <= i < n ==> results[i] == i
    {
      FillAnchor();
      n := nInuse;
      Expose();
    }
  }

  lemma {:induction false} FindIs(es: seq<Entry>, name: DevName, k: int)
    requires -1 <= k < |es|
    requires k >= 0 ==> es[k].name == name
    requires forall i :: 0 <= i < (if k < 0 then |es| else k) ==> es[i].name != name
    ensures Find(es, name) == k
  {
    var f := Find(es, name);
    assert f >= 0 ==> es[f].name == name;
    assert k >= 0 ==> !(0 <= f && k < f);
  }

  lemma {:induction false} UsableGoesOn(lines: seq<Line>, i: nat)
    requires i <= |Usable(lines)| && i < |lines| && lines[i].Good?
    ensures i < |Usable(lines)| && Usable(lines)[i] == lines[i]
  {
  }

  lemma UsableAll(lines: seq<Line>)
    requires |Usable(lines)| == |lines|
    ensures Usable(lines) == lines
  {
  }

  /** A whole run on the linked list: it holds what the reference says. */
  method Run(ops: seq<Op>, classify: DevName -> int) returns (info: Info)
    ensures info.Valid()
    ensures State(info.View(), info.oldStamp, info.newStamp) == RunOps(ops, classify)
  {
    info := new Info();
    OpsNone(ops, classify);
    hide *;
    for k := 0 to |ops|
      invariant info.Valid() && fresh(info) && fresh(info.Repr)
      invariant State(info.View(), info.oldStamp, info.newStamp) == RunOps(ops[..k], classify)
    {
      OpsNext(ops, k, classify);
      RunOp(info, ops[k], classify);
    }
  }

  lemma OpsNone(ops: seq<Op>, classify: DevName -> int)
    ensures RunOps(ops[..0], classify) == State([], 0, 0) && ops[..|ops|] == ops
  {
  }

  lemma OpsNext(ops: seq<Op>, k: nat, classify: DevName -> int)
    requires k < |ops|
    ensures RunOps(ops[..k + 1], classify) == Step(RunOps(ops[..k], classify), ops[k], classify)
  {
    assert ops[..k + 1][..k] == ops[..k];
  }

  /** One operation on the linked list. */
  method RunOp(info: Info, op: Op, classify: DevName -> int)
    requires info.Valid()
    modifies info, info.Repr
    ensures info.Valid() && fresh(info.Repr - old(info.Repr))
    ensures State(info.View(), info.oldStamp, info.newStamp)
         == Step(old(State(info.View(), info.oldStamp, info.newStamp)), op, classify)
  {
    hide Info.Valid, Get, ReadLines, Usable, ViewOf;
    match op
    case Read(stamp, lines) =>
      var failed := info.ReadFailed(stamp, lines, classify);
    case Look(name) =>
      var node := info.NodeGet(name);
  }
}
