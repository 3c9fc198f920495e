/**
 * library/readproc.c: how status2proc finds the handler for a line of /proc/<pid>/status
 * by a perfect hash of three characters of the line.
 */
module ProcStatus {

  const GPERF_TABLE_SIZE: nat := 128

  /** asso[c & 127]: what a character adds to the hash. */
  function Asso(c: char): nat {
    if c < 128 as char then AssoOf(c) else AssoOf((c as int % 128) as char)
  }

  function AssoOf(c: char): nat {
    if c < 'a' then AssoUpper(c) else AssoLower(c)
  }

  function AssoUpper(c: char): nat {
    if c == 'H' || c == 'R' || c == 'T' || c == 'V' || c == 'W' then 0
    else if c == 'S' then 5
    else if c == ':' then 6
    else if c == 'G' then 10
    else if c == 'P' then 20
    else if c == 'L' then 21
    else if c == 'C' then 25
    else if c == 'N' then 30
    else if c == 'D' then 31
    else if c == 'I' then 35
    else if c == 'Q' then 36
    else if c == 'U' then 40
    else if c == 'A' then 45
    else if c == 'E' || c == 'F' then 50
    else if c == 'B' then 55
    else 101
  }

  function AssoLower(c: char): nat {
    if c == 'd' || c == 'p' || c == 'r' then 0
    else if c == 'e' || c == 'w' then 1
    else if c == 't' then 6
    else if c == 'g' || c == 'i' then 10
    else if c == 'c' then 15
    else if c == 'm' then 25
    else if c == 'a' then 30
    else if c == 'x' then 35
    else if c == 'o' || c == 'u' then 40
    else if c == 's' then 50
    else 101
  }

  function Table1(i: int): string {
    match i
    case 0 => "VmHWM"
    case 1 => "Threads"
    case 5 => "VmRSS"
    case 6 => "VmSwap"
    case 10 => "Tgid"
    case 11 => "VmStk"
    case 15 => "VmSize"
    case 16 => "Gid"
    case 20 => "VmPTE"
    case 21 => "VmPeak"
    case _ => ""
  }

  function Table2(i: int): string {
    match i
    case 25 => "ShdPnd"
    case 26 => "Pid"
    case 30 => "PPid"
    case 31 => "VmLib"
    case 35 => "SigPnd"
    case 36 => "VmLck"
    case 40 => "SigCgt"
    case 41 => "State"
    case 45 => "CapPrm"
    case 46 => "Uid"
    case _ => ""
  }

  function Table3(i: int): string {
    match i
    case 50 => "SigIgn"
    case 51 => "SigQ"
    case 55 => "RssShmem"
    case 56 => "Name"
    case 60 => "CapInh"
    case 61 => "VmData"
    case _ => ""
  }

  function Table4(i: int): string {
    match i
    case 65 => "FDSize"
    case 70 => "SigBlk"
    case 75 => "CapEff"
    case 80 => "CapBnd"
    case 85 => "VmExe"
    case 90 => "Groups"
    case 95 => "RssAnon"
    case 100 => "RssFile"
    case _ => ""
  }

  /** The name in slot `i` of the table, empty for a NUL entry. */
  function Table(i: int): string {
    if i < 25 then Table1(i) else if i < 50 then Table2(i) else if i < 65 then Table3(i) else Table4(i)
  }

  /** The slot for a line, from its first, third and fourth characters. */
  function Slot(a: char, c: char, d: char): (i: nat)
    ensures i < GPERF_TABLE_SIZE
  {
    (Asso(d) + Asso(c) + Asso(a)) % GPERF_TABLE_SIZE
  }

  // ----- Reference: a linear search of the names ------------------------------------------

  /** The fields status2proc knows, in the order of their slots. */
  const FIELDS_1: seq<string> := ["VmHWM", "Threads", "VmRSS", "VmSwap"]
  const FIELDS_2: seq<string> := ["Tgid", "VmStk", "VmSize", "Gid"]
  const FIELDS_3: seq<string> := ["VmPTE", "VmPeak", "ShdPnd", "Pid"]
  const FIELDS_4: seq<string> := ["PPid", "VmLib", "SigPnd", "VmLck"]
  const FIELDS_5: seq<string> := ["SigCgt", "State", "CapPrm", "Uid"]
  const FIELDS_6: seq<string> := ["SigIgn", "SigQ", "RssShmem", "Name"]
  const FIELDS_7: seq<string> := ["CapInh", "VmData", "FDSize", "SigBlk"]
  const FIELDS_8: seq<string> := ["CapEff", "CapBnd", "VmExe", "Groups"]
  const FIELDS_9: seq<string> := ["RssAnon", "RssFile"]

  predicate Known(name: string) {
    || name in FIELDS_1 || name in FIELDS_2 || name in FIELDS_3
    || name in FIELDS_4 || name in FIELDS_5 || name in FIELDS_6
    || name in FIELDS_7 || name in FIELDS_8 || name in FIELDS_9
  }

  // ----- The hash is perfect ----------------------------------------------------------------

  /** A table entry other than a NUL one is a known name of at least three characters. */
  lemma TableIsKnown(i: int)
    ensures Table(i) == "" || (Known(Table(i)) && |Table(i)| >= 3)
  {
  }

  /** A name's own slot holds it; the fourth character is the colon when there are only three. */
  ghost predicate HashesToItself(name: string) {
    |name| >= 3 && Table(Slot(name[0], name[2], if |name| > 3 then name[3] else ':')) == name
  }

  /** A name found in its slot, given the hash of its characters. */
  lemma InSlot(name: string, i: nat)
    requires |name| >= 3 && Slot(name[0], name[2], if |name| > 3 then name[3] else ':') == i && Table(i) == name
    ensures HashesToItself(name)
  {
  }

  lemma Hashes1(name: string)
    requires name in FIELDS_1
    ensures HashesToItself(name)
  {
    InSlot("VmHWM", 0);
    InSlot("Threads", 1);
    InSlot("VmRSS", 5);
    InSlot("VmSwap", 6);
  }

  lemma Hashes2(name: string)
    requires name in FIELDS_2
    ensures HashesToItself(name)
  {
    InSlot("Tgid", 10);
    InSlot("VmStk", 11);
    InSlot("VmSize", 15);
    InSlot("Gid", 16);
  }

  lemma Hashes3(name: string)
    requires name in FIELDS_3
    ensures HashesToItself(name)
  {
    InSlot("VmPTE", 20);
    InSlot("VmPeak", 21);
    InSlot("ShdPnd", 25);
    InSlot("Pid", 26);
  }

  lemma Hashes4(name: string)
    requires name in FIELDS_4
    ensures HashesToItself(name)
  {
    InSlot("PPid", 30);
    InSlot("VmLib", 31);
    InSlot("SigPnd", 35);
    InSlot("VmLck", 36);
  }

  lemma Hashes5(name: string)
    requires name in FIELDS_5
    ensures HashesToItself(name)
  {
    InSlot("SigCgt", 40);
    InSlot("State", 41);
    InSlot("CapPrm", 45);
    InSlot("Uid", 46);
  }

  lemma Hashes6(name: string)
    requires name in FIELDS_6
    ensures HashesToItself(name)
  {
    InSlot("SigIgn", 50);
    InSlot("SigQ", 51);
    InSlot("RssShmem", 55);
    InSlot("Name", 56);
  }

  lemma Hashes7(name: string)
    requires name in FIELDS_7
    ensures HashesToItself(name)
  {
    InSlot("CapInh", 60);
    InSlot("VmData", 61);
    InSlot("FDSize", 65);
    InSlot("SigBlk", 70);
  }

  lemma Hashes8(name: string)
    requires name in FIELDS_8
    ensures HashesToItself(name)
  {
    InSlot("CapEff", 75);
    InSlot("CapBnd", 80);
    InSlot("VmExe", 85);
    InSlot("Groups", 90);
  }

  lemma Hashes9(name: string)
    requires name in FIELDS_9
    ensures HashesToItself(name)
  {
    InSlot("RssAnon", 95);
    InSlot("RssFile", 100);
  }

  lemma KnownHashes(name: string)
    requires Known(name)
    ensures HashesToItself(name)
  {
    hide HashesToItself;
    if name in FIELDS_1 {
      Hashes1(name);
    } else if name in FIELDS_2 {
      Hashes2(name);
    } else if name in FIELDS_3 {
      Hashes3(name);
    } else if name in FIELDS_4 {
      Hashes4(name);
    } else if name in FIELDS_5 {
      Hashes5(name);
    } else if name in FIELDS_6 {
      Hashes6(name);
    } else if name in FIELDS_7 {
      Hashes7(name);
    } else if name in FIELDS_8 {
      Hashes8(name);
    } else if name in FIELDS_9 {
      Hashes9(name);
    }
  }

  /** What the code accepts for the text `s` with its first colon at `colon`. */
  predicate Accepts(s: string, colon: nat)
    requires colon < |s| && |s| >= 4
  {
    var entry := Table(Slot(s[0], s[2], s[3]));
    colon == |entry| && s[..colon] == entry
  }

  /** Off a line that starts with a colon, the hash finds exactly what a linear search finds. */
  lemma HashIsLinearSearch(s: string, colon: nat)
    requires 0 < colon < |s| && |s| >= 4 && s[colon] == ':'
    ensures Accepts(s, colon) <==> Known(s[..colon])
    ensures Known(s[..colon]) ==> Table(Slot(s[0], s[2], s[3])) == s[..colon]
  {
    TableIsKnown(Slot(s[0], s[2], s[3]));
    var name := s[..colon];
    if Known(name) {
      KnownHashes(name);
      assert s[3] == if colon > 3 then name[3] else ':';
    }
  }

  // ----- The walk over the lines --------------------------------------------------------------

  /** strchr: the first `c`, or the length for NULL. */
  function Index(s: string, c: char): (k: nat)
    ensures k <= |s| && (forall i :: 0 <= i < k ==> s[i] != c) && (k < |s| ==> s[k] == c)
  {
    if s == [] || s[0] == c then 0 else 1 + Index(s[1..], c)
  }

  /** The fields dispatched for a text, names being searched for one by one. */
  function LinearFields(s: string): seq<string>
    decreases |s|
  {
    var colon := Index(s, ':');
    if |s| < 4 || colon + 1 >= |s| || s[colon + 1] != '\t' then []
    else if Known(s[..colon]) then [s[..colon]] + NextLine(s[colon + 2..])
    else NextLine(s)
  }

  /** What follows the next newline. */
  function NextLine(s: string): seq<string>
    decreases |s|, 0
  {
    var nl := Index(s, '\n');
    if nl == |s| then [] else LinearFields(s[nl + 1..])
  }

  /** A line of the status file as the kernel writes it. */
  datatype Field = Field(name: string, value: string)

  ghost predicate WellFormed(f: Field) {
    f.name != "" && ':' !in f.name && '\n' !in f.name && '\n' !in f.value
  }

  /** The text of such lines. */
  function Text(fields: seq<Field>): string {
    if fields == [] then "" else fields[0].name + ":\t" + fields[0].value + "\n" + Text(fields[1..])
  }

  /** The names status2proc knows among them, in order. */
  function KnownNames(fields: seq<Field>): seq<string> {
    if fields == [] then []
    else (if Known(fields[0].name) then [fields[0].name] else []) + KnownNames(fields[1..])
  }

  lemma {:induction false} IndexIs(s: string, c: char, k: nat)
    requires k <= |s| && (forall i :: 0 <= i < k ==> s[i] != c) && (k < |s| ==> s[k] == c)
    ensures Index(s, c) == k
  {
    if k > 0 {
      IndexIs(s[1..], c, k - 1);
    }
  }

  /** On a well-formed text the fields dispatched are the known ones, each once and in order. */
  lemma {:induction false} FieldsOfText(fields: seq<Field>)
    requires forall i :: 0 <= i < |fields| ==> WellFormed(fields[i])
    ensures LinearFields(Text(fields)) == KnownNames(fields)
    decreases |fields|
  {
    if fields != [] {
      FieldsOfText(fields[1..]);
      FirstLine(fields[0], Text(fields[1..]));
    }
  }

  lemma FirstLine(f: Field, rest: string)
    requires WellFormed(f)
    ensures LinearFields(f.name + ":\t" + f.value + "\n" + rest) ==
            (if Known(f.name) then [f.name] else []) + LinearFields(rest)
  {
    hide Known, LinearFields, NextLine;
    var s := f.name + ":\t" + f.value + "\n" + rest;
    var n, v := |f.name|, |f.value|;
    LineParts(f, rest, s);
    IndexIs(s, ':', n);
    IndexIs(s, '\n', n + 2 + v);
    assert forall i :: 0 <= i < v ==> s[n + 2..][..v][i] == f.value[i];
    IndexIs(s[n + 2..], '\n', v);
    LinearFieldsAre(s);
    NextLineIs(s);
    NextLineIs(s[n + 2..]);
  }

  lemma LineParts(f: Field, rest: string, s: string)
    requires WellFormed(f) && s == f.name + ":\t" + f.value + "\n" + rest
    ensures var n, v := |f.name|, |f.value|;
            && |s| >= n + 3 + v && s[..n] == f.name && s[n] == ':' && s[n + 1] == '\t' && s[n + 2 + v] == '\n'
            && (forall i :: 0 <= i < n ==> s[i] != ':')
            && (forall i :: 0 <= i < n + 2 + v ==> s[i] != '\n')
            && s[n + 3 + v..] == rest && s[n + 2..][v + 1..] == rest && s[n + 2..][v] == '\n'
            && s[n + 2..][..v] == f.value
  {
    var n, v := |f.name|, |f.value|;
    assert forall i :: 0 <= i < n ==> s[i] == f.name[i];
    assert forall i :: 0 <= i < v ==> s[n + 2 + i] == f.value[i];
  }

  /** No line starts with a colon. */
  ghost predicate NoLeadingColon(s: string) {
    (s != [] ==> s[0] != ':') && forall p :: 0 <= p < |s| - 1 && s[p] == '\n' ==> s[p + 1] != ':'
  }

  /** No line of a well-formed text does. */
  lemma {:induction false} TextIsPlain(fields: seq<Field>)
    requires forall i :: 0 <= i < |fields| ==> WellFormed(fields[i])
    ensures NoLeadingColon(Text(fields))
    decreases |fields|
  {
    if fields != [] {
      TextIsPlain(fields[1..]);
      FirstLinePlain(fields[0], Text(fields[1..]), Text(fields));
    }
  }

  lemma FirstLinePlain(f: Field, rest: string, s: string)
    requires WellFormed(f) && s == f.name + ":\t" + f.value + "\n" + rest && NoLeadingColon(rest)
    ensures NoLeadingColon(s)
  {
    LineParts(f, rest, s);
    var m := |f.name| + 3 + |f.value|;
    forall p | 0 <= p < |s| - 1 && s[p] == '\n'
      ensures s[p + 1] != ':'
    {
      assert p >= m - 1;
      assert s[p + 1] == rest[p + 1 - m];
      if p >= m {
        assert s[p] == rest[p - m];
      }
    }
  }

  lemma LinearFieldsAre(s: string)
    ensures var colon := Index(s, ':');
            LinearFields(s) ==
              if |s| < 4 || colon + 1 >= |s| || s[colon + 1] != '\t' then []
              else if Known(s[..colon]) then [s[..colon]] + NextLine(s[colon + 2..])
              else NextLine(s)
  {
    hide Known, NextLine, Index;
  }

  /** LinearFields, the decisions taken on a slice of the text. */
  lemma LinearStep(s: string)
    ensures var colon := Index(s, ':');
            if |s| < 4 || colon + 1 >= |s| || s[colon + 1] != '\t' then LinearFields(s) == []
            else
              && LinearFields(s) ==
                   (if Known(s[..colon]) then [s[..colon]] + NextLine(s[colon + 2..]) else NextLine(s))
              && (colon > 0 ==> (Known(s[..colon]) <==> Accepts(s, colon)))
  {
    hide *;
    LinearFieldsAre(s);
    var colon := Index(s, ':');
    if |s| >= 4 && 0 < colon < |s| {
      HashIsLinearSearch(s, colon);
    }
  }

  /** What giving up, and what going on from `from` after `handled`, mean for the text `S`. */
  ghost predicate Dispatched(S: string, stop: bool, handled: seq<string>, from: nat) {
    if stop then |LinearFields(S)| == 0
    else from <= |S| && LinearFields(S) == handled + NextLine(S[from..])
  }

  /**
   * What the loop does from `base` on: give up, jump to a handler, or pass over the line.
   * `from` is where the search for the next line begins.
   */
  method DispatchLine(S: string) returns (stop: bool, handled: seq<string>, from: nat)
    requires |S| > 0 ==> S[0] != ':'
    ensures Dispatched(S, stop, handled, from)
  {
    LinearStep(S);
    hide LinearFields, Known, Table, Slot, HashesToItself;
    stop, handled, from := true, [], 0;
    if S == [] {
      return;
    }
    if |S| < 4 {
      return;
    }
    var entry := Table(Slot(S[0], S[2], S[3]));
    var colon := Index(S, ':');
    if colon == |S| {
      return;
    }
    if colon + 1 == |S| || S[colon + 1] != '\t' {
      return;
    }
    stop := false;
    if colon != |entry| {
      assert S[0..] == S;
      return;
    }
    if entry != S[..colon] {
      assert S[0..] == S;
      return;
    }
    handled := [entry];
    from := colon + 2;
  }

  /** The fields found before `at`, where a line starts, are `handled`. */
  ghost predicate Reached(s: string, at: nat, handled: seq<string>) {
    at <= |s| && LinearFields(s) == handled + LinearFields(s[at..])
  }

  /** The fields found on the lines up to that of `from` are `handled`. */
  ghost predicate Handled(s: string, from: nat, handled: seq<string>) {
    from <= |s| && LinearFields(s) == handled + NextLine(s[from..])
  }

  lemma LineHandled(s: string, at: nat, handled: seq<string>, more: seq<string>, from: nat)
    requires Reached(s, at, handled) && at <= |s| && Dispatched(s[at..], false, more, from)
    ensures at + from <= |s| && Handled(s, at + from, handled + more)
  {
    hide LinearFields, NextLine;
    assert s[at..][from..] == s[at + from..];
    var rest := NextLine(s[at + from..]);
    assert handled + (more + rest) == (handled + more) + rest;
  }

  lemma NothingMore(s: string, at: nat, handled: seq<string>, more: seq<string>, from: nat)
    requires Reached(s, at, handled) && at <= |s| && Dispatched(s[at..], true, more, from)
    ensures LinearFields(s) == handled
  {
    hide LinearFields;
  }

  /**
   * The loop of status2proc over a NUL-terminated text, the handlers leaving the cursor
   * inside their line: the table entries it jumps to are the fields a linear search finds.
   */
  method DispatchFields(s: string) returns (handled: seq<string>)
    requires NoLeadingColon(s)
    ensures handled == LinearFields(s)
  {
    handled := [];
    var at: nat := 0;
    StartsReached(s);
    hide *;
    while true
      invariant LineStart(s, at) && Reached(s, at, handled)
      decreases |s| - at
    {
      var stop, from;
      stop, handled, from := DispatchAt(s, at, handled);
      if stop {
        return;
      }
      stop, at := AdvanceLine(s, from, handled);
      if stop {
        return;
      }
    }
  }

  /** And so for every text the kernel writes: the handlers entered are those of the known fields, in order. */
  method DispatchText(fields: seq<Field>) returns (handled: seq<string>)
    requires forall i :: 0 <= i < |fields| ==> WellFormed(fields[i])
    ensures handled == KnownNames(fields)
  {
    hide *;
    FieldsOfText(fields);
    TextIsPlain(fields);
    handled := DispatchFields(Text(fields));
  }

  ghost predicate LineStart(s: string, at: nat) {
    at <= |s| && (at == 0 || s[at - 1] == '\n')
  }

  lemma StartsReached(s: string)
    ensures LineStart(s, 0) && Reached(s, 0, [])
  {
    hide LinearFields;
    assert s[0..] == s;
    assert [] + LinearFields(s) == LinearFields(s);
  }

  /** One turn at the line that starts at `at`. */
  method DispatchAt(s: string, at: nat, before: seq<string>) returns (stop: bool, handled: seq<string>, from: nat)
    requires NoLeadingColon(s) && LineStart(s, at) && Reached(s, at, before)
    ensures stop ==> handled == LinearFields(s)
    ensures !stop ==> at <= from <= |s| && Handled(s, from, handled)
  {
    LineIsPlain(s, at);
    hide *;
    var more;
    stop, more, from := DispatchLine(s[at..]);
    if stop {
      NothingMore(s, at, before, more, from);
      return true, before, 0;
    }
    LineHandled(s, at, before, more, from);
    return false, before + more, at + from;
  }

  /** Advance to the next line, if there is one. */
  method AdvanceLine(s: string, from: nat, ghost handled: seq<string>) returns (stop: bool, at: nat)
    requires Handled(s, from, handled)
    ensures stop ==> LinearFields(s) == handled
    ensures !stop ==> from < at <= |s| && LineStart(s, at) && Reached(s, at, handled)
  {
    hide LinearFields, NextLine;
    NextLineIs(s[from..]);
    var nl := from + Index(s[from..], '\n');
    if nl == |s| {
      return true, 0;
    }
    assert s[from..][nl - from + 1..] == s[nl + 1..];
    return false, nl + 1;
  }

  lemma LineIsPlain(s: string, at: nat)
    requires NoLeadingColon(s) && LineStart(s, at)
    ensures at <= |s| && (|s[at..]| > 0 ==> s[at..][0] != ':')
  {
    if 0 < at < |s| {
      assert s[at - 1] == '\n';
    }
  }

  lemma NextLineIs(s: string)
    ensures var nl := Index(s, '\n');
            NextLine(s) == if nl == |s| then [] else LinearFields(s[nl + 1..])
  {
    hide LinearFields;
  }
}
