/**
 * local/signals.c: signal names, signal numbers, and the sorted listings.
 *
 * The table of names and the real-time range are parameters, since both differ between
 * systems. Strings are in the C locale's single-byte characters.
 */
module Signals {
  import opened Bytes
  import opened Decimals
  import Strutils

  datatype Entry = Entry(name: string, num: int)

  /** The system's constants: sigtable, SIGRTMIN and SIGRTMAX. */
  datatype System = System(table: seq<Entry>, rtmin: int, rtmax: int)

  // ----- Characters and strtol ----------------------------------------------------

  function Upper(c: char): char {
    if 'a' <= c <= 'z' then c - 'a' + 'A' else c
  }

  function UpperAll(s: string): (r: string)
    ensures |r| == |s| && forall i :: 0 <= i < |s| ==> r[i] == Upper(s[i])
  {
    seq(|s|, i requires 0 <= i < |s| => Upper(s[i]))
  }

  /** Two characters are the same when upper-cased exactly if they are, or are one letter in both cases. */
  lemma SameLetter(c: char, d: char)
    ensures Upper(c) == Upper(d) <==>
            || c == d
            || ('a' <= c <= 'z' && c as int == d as int + 32)
            || ('a' <= d <= 'z' && d as int == c as int + 32)
  {
  }

  predicate AllDigits(s: string) {
    forall i :: 0 <= i < |s| ==> IsDigit(s[i])
  }

  predicate IsSpace(c: char) {
    c == ' ' || '\t' <= c <= '\r'
  }

  /** How many leading characters of `s` satisfy `p`. */
  function Run(s: string, p: char -> bool): (n: nat)
    ensures n <= |s| && (forall i :: 0 <= i < n ==> p(s[i])) && (n < |s| ==> !p(s[n]))
  {
    if s == [] || !p(s[0]) then 0 else 1 + Run(s[1..], p)
  }

  /**
   * strtol in base 10: the number at the front of `s` and how far it reaches, 0 for no number.
   * A number too large for a long is left as it is: the callers reject it either way.
   */
  function Strtol(s: string): (r: (int, nat))
    ensures r.1 <= |s|
  {
    var blank := Run(s, IsSpace);
    var sign := if blank < |s| && (s[blank] == '-' || s[blank] == '+') then 1 else 0;
    var start := blank + sign;
    var count := Run(s[start..], IsDigit);
    if count == 0 then (0, 0)
    else
      var v: int := Value(s[start..][..count]);
      (if sign == 1 && s[blank] == '-' then -v else v, start + count)
  }

  /** The blanks, and the sign, that strtol passes over. */
  ghost predicate BlankText(s: string) {
    forall i :: 0 <= i < |s| ==> s[i] == ' ' || 9 <= s[i] as int <= 13
  }

  ghost predicate Sign(s: string, negative: bool) {
    if negative then s == "-" else s == "" || s == "+"
  }

  /** `s` is blanks, a sign, digits, and then nothing or something that is no digit. */
  ghost predicate Spelled(s: string, blank: string, sign: string, negative: bool, d: string, tail: string) {
    && s == blank + sign + d + tail && BlankText(blank) && Sign(sign, negative)
    && d != "" && AllDigits(d) && (tail == "" || !IsDigit(tail[0]))
  }

  /** Blanks, a sign and digits up to what is no digit: the number that the digits and the sign say. */
  lemma StrtolReads(s: string, blank: string, sign: string, negative: bool, d: string, tail: string)
    requires Spelled(s, blank, sign, negative, d, tail)
    ensures AllDigits(d) && Strtol(s).0 == Signed(negative, Value(d)) && Strtol(s).1 == |blank| + |sign| + |d|
  {
    hide *;
    FrontOf(s, blank, sign, negative, d, tail);
    ReadsAt(s, |blank|, |sign|, |d|);
  }

  function Signed(negative: bool, v: int): int {
    if negative then -v else v
  }

  /** Where the parts of a number lie. */
  lemma FrontOf(s: string, blank: string, sign: string, negative: bool, d: string, tail: string)
    requires Spelled(s, blank, sign, negative, d, tail)
    ensures AllDigits(d) && NumberAt(s, |blank|, |sign|, |d|) && DigitsAt(s, |blank| + |sign|, |d|) == d
    ensures |sign| == 1 && s[|blank|] == '-' <==> negative
  {
    assert forall i :: 0 <= i < |blank| ==> s[i] == blank[i];
    assert s[|blank|] == (if sign == "" then d else sign)[0];
    assert forall i :: 0 <= i < |d| ==> s[|blank| + |sign| + i] == d[i];
    assert s[|blank| + |sign|..] == d + tail && (d + tail)[..|d|] == d;
    assert tail != "" ==> s[|blank| + |sign| + |d|] == tail[0];
  }

  /** `n` blanks, a sign if `m` is 1, and exactly `k` digits. */
  ghost predicate NumberAt(s: string, n: nat, m: nat, k: nat) {
    && n + m + k <= |s| && m <= 1 && k > 0
    && (forall i :: 0 <= i < n ==> IsSpace(s[i]))
    && (if m == 1 then s[n] == '-' || s[n] == '+' else IsDigit(s[n]))
    && (forall i :: n + m <= i < n + m + k ==> IsDigit(s[i]))
    && (n + m + k < |s| ==> !IsDigit(s[n + m + k]))
  }

  function DigitsAt(s: string, at: nat, k: nat): string
    requires at + k <= |s|
  {
    s[at..][..k]
  }

  lemma ReadsAt(s: string, n: nat, m: nat, k: nat)
    requires NumberAt(s, n, m, k)
    ensures n + m + k <= |s| && AllDigits(DigitsAt(s, n + m, k))
    ensures Strtol(s).0 == Signed(m == 1 && s[n] == '-', Value(DigitsAt(s, n + m, k)))
    ensures Strtol(s).1 == n + m + k
  {
    hide Strtol, Run, Value;
    RunIs(s, IsSpace, n);
    RunIs(s[n + m..], IsDigit, k);
    StrtolParts(s, n, m, k);
  }

  lemma StrtolParts(s: string, n: nat, m: nat, count: nat)
    requires n == Run(s, IsSpace) && m == if n < |s| && (s[n] == '-' || s[n] == '+') then 1 else 0
    requires n + m <= |s| && count == Run(s[n + m..], IsDigit)
    ensures count == 0 ==> Strtol(s) == (0, 0)
    ensures count > 0 ==>
              var v: int := Value(s[n + m..][..count]);
              Strtol(s).0 == (if m == 1 && s[n] == '-' then -v else v) && Strtol(s).1 == n + m + count
  {
  }

  lemma {:induction false} RunIs(s: string, p: char -> bool, n: nat)
    requires n <= |s| && (forall i :: 0 <= i < n ==> p(s[i])) && (n < |s| ==> !p(s[n]))
    ensures Run(s, p) == n
  {
    if n > 0 {
      RunIs(s[1..], p, n - 1);
    }
  }

  /** Nothing else is a number. */
  lemma StrtolOnly(s: string)
    returns (blank: string, sign: string, negative: bool, d: string, tail: string)
    requires Strtol(s).1 > 0
    ensures Spelled(s, blank, sign, negative, d, tail)
  {
    hide Strtol, Run, Value;
    var n := Run(s, IsSpace);
    var m := if n < |s| && (s[n] == '-' || s[n] == '+') then 1 else 0;
    var count := Run(s[n + m..], IsDigit);
    StrtolParts(s, n, m, count);
    negative := m == 1 && s[n] == '-';
    blank, sign, d, tail := s[..n], s[n..n + m], s[n + m..n + m + count], s[n + m + count..];
    PartsOf(s, n, m, count);
  }

  lemma PartsOf(s: string, n: nat, m: nat, k: nat)
    requires n + m + k <= |s| && m <= 1 && (m == 1 ==> s[n] == '-' || s[n] == '+')
    requires var rest := s[n + m..]; AllDigits(rest[..k]) && (k < |rest| ==> !IsDigit(rest[k]))
    ensures s == s[..n] + s[n..n + m] + s[n + m..n + m + k] + s[n + m + k..]
    ensures Sign(s[n..n + m], m == 1 && s[n] == '-') && AllDigits(s[n + m..n + m + k])
    ensures n + m + k < |s| ==> !IsDigit(s[n + m + k..][0])
  {
    assert m == 1 ==> s[n..n + m] == [s[n]];
    assert s[n + m..n + m + k] == s[n + m..][..k];
  }

  /** Digits are read to their end, and nothing but digits is. */
  lemma StrtolDigits(t: string)
    requires t != "" && IsDigit(t[0])
    ensures Strtol(t).1 == |t| <==> AllDigits(t)
    ensures AllDigits(t) ==> Strtol(t).0 == Value(t)
  {
    assert Run(t, IsSpace) == 0;
    assert t[0..] == t && t[..|t|] == t;
  }

  /** Reading back a printed number. */
  lemma StrtolDecimal(n: nat)
    ensures Strtol(Decimal(n)) == (n, |Decimal(n)|)
  {
    var s := Decimal(n);
    DecimalValue(n);
    hide Strtol, Value, Decimal;
    StrtolDigits(s);
  }

  // ----- Number to name -------------------------------------------------------------

  /** `k` is the first entry of the table with number `signo`. */
  predicate FirstWith(table: seq<Entry>, signo: int, k: int) {
    0 <= k < |table| && table[k].num == signo && forall i :: 0 <= i < k ==> table[i].num != signo
  }

  predicate Named(table: seq<Entry>, signo: int) {
    exists k :: 0 <= k < |table| && table[k].num == signo
  }

  /** What signal_number_to_name answers for a number the table does not list. */
  function UnlistedName(sys: System, signo: int): string {
    if signo == 0 then "0"
    else if signo == sys.rtmin then "RTMIN"
    else if sys.rtmin < signo <= sys.rtmax then "RTMIN+" + Decimal(signo - sys.rtmin)
    else "-"
  }

  ghost predicate IsNameOf(sys: System, signo: int, name: string) {
    if Named(sys.table, signo) then
      exists k :: FirstWith(sys.table, signo, k) && name == sys.table[k].name
    else name == UnlistedName(sys, signo)
  }

  method SignalNumberToName(sys: System, signo: int) returns (name: string)
    ensures IsNameOf(sys, signo, name)
  {
    var n := 0;
    while n < |sys.table|
      invariant 0 <= n <= |sys.table|
      invariant forall i :: 0 <= i < n ==> sys.table[i].num != signo
    {
      if sys.table[n].num == signo {
        assert FirstWith(sys.table, signo, n);
        return sys.table[n].name;
      }
      n := n + 1;
    }
    if signo == 0 {
      return "0";
    }
    if signo == sys.rtmin {
      return "RTMIN";
    }
    if signo > sys.rtmin && signo <= sys.rtmax {
      return "RTMIN+" + Decimal(signo - sys.rtmin);
    }
    return "-";
  }

  /** The names made up for numbers the table does not list. */
  lemma UnlistedExact(sys: System, signo: int, name: string)
    requires IsNameOf(sys, signo, name) && !Named(sys.table, signo)
    ensures name == "0" <==> signo == 0
    ensures name == "RTMIN" <==> signo != 0 && signo == sys.rtmin
    ensures name == "-" <==> signo != 0 && signo != sys.rtmin && !(sys.rtmin < signo <= sys.rtmax)
  {
    assert |"0"| == 1 && |"-"| == 1 && |"RTMIN"| == 5 && "0"[0] != "-"[0];
  }

  lemma NameUnique(sys: System, signo: int, a: string, b: string)
    requires IsNameOf(sys, signo, a) && IsNameOf(sys, signo, b)
    ensures a == b
  {
    if Named(sys.table, signo) {
      var i :| FirstWith(sys.table, signo, i) && a == sys.table[i].name;
      var j :| FirstWith(sys.table, signo, j) && b == sys.table[j].name;
      assert i == j;
    }
  }

  // ----- Name to number -------------------------------------------------------------

  predicate HasPrefix(s: string, prefix: string) {
    |s| >= |prefix| && UpperAll(s[..|prefix|]) == prefix
  }

  /** The table test: the first letter as it stands upper-cased, then strcasecmp. */
  predicate Matches(e: Entry, name: string) {
    && e.name != [] && name != []
    && e.name[0] == Upper(name[0])
    && UpperAll(name) == UpperAll(e.name)
  }

  /** An entry whose name starts with a small letter is never found. */
  lemma SmallLetterUnfound(e: Entry, name: string)
    requires e.name != [] && 'a' <= e.name[0] <= 'z'
    ensures !Matches(e, name)
  {
  }

  /** The part of signal_name_to_number after the table search. */
  function RealTimeNumber(sys: System, name: string): int {
    if HasPrefix(name, "RTMIN") && |name| == 5 then sys.rtmin
    else if HasPrefix(name, "RTMAX") && |name| == 5 then sys.rtmax
    else if (HasPrefix(name, "RTMIN") && name[5] == '+') || (HasPrefix(name, "RTMAX") && name[5] == '-') then
      var rest := name[6..];
      if rest == [] || !IsDigit(rest[0]) then -1
      else
        var (n, end) := Strtol(rest);
        if end < |rest| || n > sys.rtmax - sys.rtmin then -1
        else if name[5] == '+' then sys.rtmin + n else sys.rtmax - n
    else -1
  }

  // ----- What a real-time name means, without reading it ------------------------------

  /** `name`, in any case, is `prefix` and then the decimal `d`, which is within the range. */
  ghost predicate OffsetBy(sys: System, name: string, prefix: string, d: string) {
    d != "" && AllDigits(d) && UpperAll(name) == prefix + d && Value(d) <= sys.rtmax - sys.rtmin
  }

  /** RTMIN, RTMAX, RTMIN+n and RTMAX-n, all inside the range. */
  ghost predicate RealTimeMeans(sys: System, name: string, num: int) {
    || (UpperAll(name) == "RTMIN" && num == sys.rtmin)
    || (UpperAll(name) == "RTMAX" && num == sys.rtmax)
    || (exists d :: OffsetBy(sys, name, "RTMIN+", d) && num == sys.rtmin + Value(d))
    || (exists d :: OffsetBy(sys, name, "RTMAX-", d) && num == sys.rtmax - Value(d))
  }

  /** The number a real-time name means, -1 for what is no such name. */
  ghost predicate RealTimeAnswer(sys: System, name: string, num: int) {
    RealTimeMeans(sys, name, num) || (num == -1 && forall n :: !RealTimeMeans(sys, name, n))
  }

  lemma PrefixUpper(s: string, prefix: string)
    ensures HasPrefix(s, prefix) <==> |s| >= |prefix| && UpperAll(s)[..|prefix|] == prefix
  {
    if |s| >= |prefix| {
      assert UpperAll(s)[..|prefix|] == UpperAll(s[..|prefix|]);
    }
  }

  lemma DigitsUpper(t: string, d: string)
    requires UpperAll(t) == d && AllDigits(d)
    ensures t == d
  {
    assert |t| == |d|;
    forall i | 0 <= i < |t|
      ensures t[i] == d[i]
    {
      assert Upper(t[i]) == UpperAll(t)[i] == d[i] && IsDigit(d[i]);
    }
  }

  /** The part of a name behind its prefix and sign. */
  lemma OffsetRest(name: string, prefix: string, d: string)
    requires AllDigits(d) && UpperAll(name) == prefix + d && |prefix| == 6 && (prefix[5] == '+' || prefix[5] == '-')
    ensures |name| == 6 + |d| && name[5] == prefix[5] && name[6..] == d && HasPrefix(name, prefix[..5])
  {
    assert |name| == |UpperAll(name)|;
    assert Upper(name[5]) == UpperAll(name)[5] == prefix[5];
    UpperRest(name, 6);
    DigitsUpper(name[6..], d);
    PrefixUpper(name, prefix[..5]);
    assert UpperAll(name)[..5] == prefix[..5];
  }

  lemma UpperRest(s: string, k: nat)
    requires k <= |s|
    ensures UpperAll(s[k..]) == UpperAll(s)[k..]
  {
  }

  /** A name with an offset: what its prefix says, and how the offset reads. */
  lemma OffsetReads(sys: System, name: string, prefix: string, d: string)
    requires prefix == "RTMIN+" || prefix == "RTMAX-"
    requires OffsetBy(sys, name, prefix, d)
    ensures RealTimeNumber(sys, name) == if prefix == "RTMIN+" then sys.rtmin + Value(d) else sys.rtmax - Value(d)
  {
    OffsetNumber(sys, name, prefix, d);
  }

  lemma OffsetNumber(sys: System, name: string, prefix: string, d: string)
    requires prefix == "RTMIN+" || prefix == "RTMAX-"
    requires d != "" && AllDigits(d) && UpperAll(name) == prefix + d
    ensures RealTimeNumber(sys, name) ==
            if Value(d) > sys.rtmax - sys.rtmin then -1
            else if prefix == "RTMIN+" then sys.rtmin + Value(d) else sys.rtmax - Value(d)
  {
    OffsetRest(name, prefix, d);
    StrtolDigits(d);
    PrefixUpper(name, "RTMIN");
    PrefixUpper(name, "RTMAX");
    hide Strtol, Value;
  }

  /** The two ways to a number other than -1. */
  lemma NumberForm(sys: System, name: string)
    requires RealTimeNumber(sys, name) != -1
    ensures |name| >= 5
    ensures |name| == 5 ==>
              || (HasPrefix(name, "RTMIN") && RealTimeNumber(sys, name) == sys.rtmin)
              || (HasPrefix(name, "RTMAX") && RealTimeNumber(sys, name) == sys.rtmax)
    ensures |name| > 5 ==>
              && |name| > 6 && IsDigit(name[6]) && Strtol(name[6..]).1 == |name[6..]|
              && Strtol(name[6..]).0 <= sys.rtmax - sys.rtmin
              && (|| (HasPrefix(name, "RTMIN") && name[5] == '+'
                      && RealTimeNumber(sys, name) == sys.rtmin + Strtol(name[6..]).0)
                  || (HasPrefix(name, "RTMAX") && name[5] == '-'
                      && RealTimeNumber(sys, name) == sys.rtmax - Strtol(name[6..]).0))
  {
    hide Strtol, UpperAll;
  }

  /** A number read off a real-time name is what the name means. */
  lemma NumberMeans(sys: System, name: string)
    requires RealTimeNumber(sys, name) != -1
    ensures RealTimeMeans(sys, name, RealTimeNumber(sys, name))
  {
    NumberForm(sys, name);
    hide RealTimeNumber, HasPrefix, Strtol, UpperAll;
    if |name| == 5 {
      PrefixUpper(name, "RTMIN");
      PrefixUpper(name, "RTMAX");
      assert UpperAll(name)[..5] == UpperAll(name);
    } else if HasPrefix(name, "RTMIN") && name[5] == '+'
              && RealTimeNumber(sys, name) == sys.rtmin + Strtol(name[6..]).0 {
      OffsetNamed(sys, name, "RTMIN+");
      MeansOffset(sys, name, "RTMIN+", name[6..]);
    } else {
      OffsetNamed(sys, name, "RTMAX-");
      MeansOffset(sys, name, "RTMAX-", name[6..]);
    }
  }

  lemma OffsetNamed(sys: System, name: string, prefix: string)
    requires |prefix| == 6 && HasPrefix(name, prefix[..5]) && |name| > 6 && name[5] == prefix[5]
    requires (prefix[5] == '+' || prefix[5] == '-') && IsDigit(name[6])
    requires Strtol(name[6..]).1 == |name[6..]| && Strtol(name[6..]).0 <= sys.rtmax - sys.rtmin
    ensures OffsetBy(sys, name, prefix, name[6..]) && Strtol(name[6..]).0 == Value(name[6..])
  {
    var rest, u := name[6..], UpperAll(name);
    StrtolDigits(rest);
    DigitsStay(rest);
    UpperRest(name, 6);
    PrefixUpper(name, prefix[..5]);
    assert u[5] == name[5];
    hide *;
    SixAndRest(u, prefix);
    OffsetIs(sys, name, prefix, rest);
  }

  lemma SixAndRest(u: string, prefix: string)
    requires |u| >= 6 && |prefix| == 6 && u[..5] == prefix[..5] && u[5] == prefix[5]
    ensures u == prefix + u[6..]
  {
    assert forall i :: 0 <= i < 5 ==> u[i] == u[..5][i] == prefix[..5][i] == prefix[i];
  }

  lemma OffsetIs(sys: System, name: string, prefix: string, d: string)
    requires |d| > 0 && AllDigits(d) && UpperAll(name) == prefix + d && Value(d) <= sys.rtmax - sys.rtmin
    ensures OffsetBy(sys, name, prefix, d)
  {
  }

  lemma MeansOffset(sys: System, name: string, prefix: string, d: string)
    requires OffsetBy(sys, name, prefix, d) && (prefix == "RTMIN+" || prefix == "RTMAX-")
    ensures RealTimeMeans(sys, name, if prefix == "RTMIN+" then sys.rtmin + Value(d) else sys.rtmax - Value(d))
  {
    hide OffsetBy, Value;
  }

  lemma DigitsStay(t: string)
    requires AllDigits(t)
    ensures UpperAll(t) == t
  {
  }

  /** Reading a real-time name gives its meaning, and -1 exactly when it has none. */
  lemma RealTimeExact(sys: System, name: string, num: int)
    ensures RealTimeAnswer(sys, name, num) <==> num == RealTimeNumber(sys, name)
  {
    forall n | RealTimeMeans(sys, name, n)
      ensures n == RealTimeNumber(sys, name)
    {
      MeansNumber(sys, name, n);
    }
    if RealTimeNumber(sys, name) != -1 {
      NumberMeans(sys, name);
    }
    hide RealTimeMeans, RealTimeNumber;
  }

  lemma MeansNumber(sys: System, name: string, n: int)
    requires RealTimeMeans(sys, name, n)
    ensures n == RealTimeNumber(sys, name)
  {
    if d :| OffsetBy(sys, name, "RTMIN+", d) && n == sys.rtmin + Value(d) {
      OffsetReads(sys, name, "RTMIN+", d);
    } else if d :| OffsetBy(sys, name, "RTMAX-", d) && n == sys.rtmax - Value(d) {
      OffsetReads(sys, name, "RTMAX-", d);
    } else {
      PrefixUpper(name, "RTMIN");
      PrefixUpper(name, "RTMAX");
      assert |name| == |UpperAll(name)| == 5;
      assert UpperAll(name)[..5] == UpperAll(name);
    }
  }

  /** What signal_name_to_number answers: a number as it stands, a listed name, a real-time name. */
  ghost predicate IsNumberOf(sys: System, spelled: string, num: int) {
    var (n, end) := Strtol(spelled);
    if end > 0 then num == if end < |spelled| || !(0 <= n <= INT_MAX) then -1 else n
    else
      var name := if HasPrefix(spelled, "SIG") then spelled[3..] else spelled;
      if exists k :: 0 <= k < |sys.table| && Matches(sys.table[k], name) then
        exists k :: FirstMatching(sys.table, name, k) && num == sys.table[k].num
      else RealTimeAnswer(sys, name, num)
  }

  predicate FirstMatching(table: seq<Entry>, name: string, k: int) {
    0 <= k < |table| && Matches(table[k], name) && forall i :: 0 <= i < k ==> !Matches(table[i], name)
  }

  method SignalNameToNumber(sys: System, name0: string) returns (num: int)
    ensures IsNumberOf(sys, name0, num)
  {
    var name := name0;
    var (n, end) := Strtol(name);
    if end > 0 {
      if end < |name| || n < 0 || n > INT_MAX {
        return -1;
      }
      return n;
    }
    if HasPrefix(name, "SIG") {
      name := name[3..];
    }
    var i := 0;
    while i < |sys.table|
      invariant 0 <= i <= |sys.table|
      invariant forall k :: 0 <= k < i ==> !Matches(sys.table[k], name)
    {
      if Matches(sys.table[i], name) {
        assert FirstMatching(sys.table, name, i);
        return sys.table[i].num;
      }
      i := i + 1;
    }
    num := RealTimeNumber(sys, name);
    RealTimeExact(sys, name, num);
  }

  /**
   * A number: what its digits say, unless something follows them, or it is negative, or too
   * large for an int.
   */
  lemma NumberExact(sys: System, s: string, blank: string, sign: string, negative: bool, d: string, tail: string,
                    num: int)
    requires Spelled(s, blank, sign, negative, d, tail)
    ensures IsNumberOf(sys, s, num) <==>
            num == if tail != "" || (negative && Value(d) > 0) || Value(d) > 0x7fff_ffff then -1 else Value(d)
  {
    hide Strtol, Value, RealTimeAnswer, Matches, HasPrefix;
    StrtolReads(s, blank, sign, negative, d, tail);
    assert |s| == |blank| + |sign| + |d| + |tail|;
  }

  // ----- Round trip ------------------------------------------------------------------

  /**
   * What every real table satisfies: names start with a capital letter, are distinct
   * whatever their case and carry no SIG prefix.
   */
  ghost predicate ProperTable(table: seq<Entry>) {
    && (forall k :: 0 <= k < |table| ==>
          var name := table[k].name;
          name != [] && 'A' <= name[0] <= 'Z' && !HasPrefix(name, "SIG"))
    && (forall i, j :: 0 <= i < j < |table| ==> UpperAll(table[i].name) != UpperAll(table[j].name))
  }

  /** The name made up for a number the table does not list is some entry's name. */
  ghost predicate Shadowed(sys: System, signo: int) {
    !Named(sys.table, signo) &&
    exists k :: 0 <= k < |sys.table| && UpperAll(sys.table[k].name) == UnlistedName(sys, signo)
  }

  /** `spelled` is `name` in any mixture of cases, with or without a SIG prefix. */
  ghost predicate SpellingOf(spelled: string, name: string) {
    || UpperAll(spelled) == UpperAll(name)
    || (name != "0" && UpperAll(spelled) == "SIG" + UpperAll(name))
  }

  lemma UpperFirst(s: string, t: string, n: nat)
    requires UpperAll(s) == UpperAll(t) && n <= |s|
    ensures UpperAll(s[..n]) == UpperAll(t[..n]) && UpperAll(s[n..]) == UpperAll(t[n..])
  {
    assert |s| == |UpperAll(s)| == |t|;
    forall i | 0 <= i < |s|
      ensures Upper(s[i]) == Upper(t[i])
    {
      assert UpperAll(s)[i] == UpperAll(t)[i];
    }
  }

  lemma LetterIsNoNumber(s: string)
    requires s != [] && 'A' <= Upper(s[0]) <= 'Z'
    ensures Strtol(s) == (0, 0)
  {
    assert Run(s, IsSpace) == 0;
    assert s[0..] == s;
    assert Run(s, IsDigit) == 0;
  }

  /** Stripping the prefix of a spelling leaves the name, up to case. */
  lemma StrippedSpelling(spelled: string, name: string)
    requires SpellingOf(spelled, name) && name != "0" && !HasPrefix(name, "SIG")
    ensures var s := if HasPrefix(spelled, "SIG") then spelled[3..] else spelled;
            UpperAll(s) == UpperAll(name)
  {
    if UpperAll(spelled) == UpperAll(name) {
      if |spelled| >= 3 {
        UpperFirst(spelled, name, 3);
      }
      assert |spelled| == |UpperAll(spelled)| == |name|;
      assert !HasPrefix(spelled, "SIG");
    } else {
      var u := "SIG" + UpperAll(name);
      assert |spelled| == |u|;
      forall i | 0 <= i < |spelled|
        ensures Upper(spelled[i]) == u[i]
      {
        assert UpperAll(spelled)[i] == u[i];
      }
      assert UpperAll(spelled[..3]) == "SIG";
      assert UpperAll(spelled[3..]) == UpperAll(name);
    }
  }

  lemma FirstMatch(table: seq<Entry>, k: nat, s: string)
    requires ProperTable(table) && k < |table| && UpperAll(s) == UpperAll(table[k].name)
    ensures Matches(table[k], s)
    ensures forall i :: 0 <= i < |table| && Matches(table[i], s) ==> i == k
  {
    var name := table[k].name;
    assert |s| == |UpperAll(s)| == |name|;
    assert Upper(s[0]) == UpperAll(s)[0] == UpperAll(name)[0] == Upper(name[0]) == name[0];
  }

  lemma RealTimeSpelling(sys: System, signo: int, s: string)
    requires signo == sys.rtmin || sys.rtmin < signo <= sys.rtmax
    requires UpperAll(s) == if signo == sys.rtmin then "RTMIN" else "RTMIN+" + Decimal(signo - sys.rtmin)
    ensures RealTimeNumber(sys, s) == signo
  {
    if signo > sys.rtmin {
      var d := Decimal(signo - sys.rtmin);
      DecimalValue(signo - sys.rtmin);
      hide Decimal, Value, UpperAll;
      assert OffsetBy(sys, s, "RTMIN+", d);
    }
    hide RealTimeNumber;
    MeansNumber(sys, s, signo);
  }

  lemma RealTimeName(sys: System, signo: int)
    requires signo != 0 && (signo == sys.rtmin || sys.rtmin < signo <= sys.rtmax)
    ensures var name := UnlistedName(sys, signo);
            && name == (if signo == sys.rtmin then "RTMIN" else "RTMIN+" + Decimal(signo - sys.rtmin))
            && |name| >= 5 && name[0] == 'R' && UpperAll(name) == name && !HasPrefix(name, "SIG")
  {
    var name := UnlistedName(sys, signo);
    assert UpperAll(name) == name;
    assert UpperAll(name[..3])[0] == 'R' != "SIG"[0];
  }

  lemma LetterSpelling(spelled: string, name: string)
    requires SpellingOf(spelled, name) && name != [] && 'A' <= name[0] <= 'Z'
    ensures Strtol(spelled) == (0, 0)
  {
    assert spelled != [] && Upper(spelled[0]) == UpperAll(spelled)[0];
    assert UpperAll(name)[0] == Upper(name[0]);
    LetterIsNoNumber(spelled);
  }

  /**
   * For every number whose printed name is not "-", any spelling of that name leads back to
   * the number, exactly unless the table uses a real-time name for another number.
   */
  lemma RoundTrip(sys: System, signo: int, name: string, spelled: string, num: int)
    requires ProperTable(sys.table)
    requires IsNameOf(sys, signo, name) && name != "-"
    requires SpellingOf(spelled, name) && IsNumberOf(sys, spelled, num)
    ensures num == signo <==> !Shadowed(sys, signo)
  {
    hide SpellingOf, ProperTable, RealTimeNumber, RealTimeAnswer, Matches, Strtol;
    if Named(sys.table, signo) {
      var k :| FirstWith(sys.table, signo, k) && name == sys.table[k].name;
      ListedRoundTrip(sys.table, k, spelled);
    } else if signo == 0 {
      ZeroSpelling(spelled);
      ZeroNotShadowed(sys);
    } else {
      RealTimeRoundTrip(sys, signo, spelled);
      RealTimeExact(sys, if HasPrefix(spelled, "SIG") then spelled[3..] else spelled, num);
    }
  }

  /** No entry's name starts with an R, as in every table the code is built with. */
  ghost predicate NoneLikeRealTime(table: seq<Entry>) {
    forall k :: 0 <= k < |table| ==> table[k].name != [] && table[k].name[0] != 'R'
  }

  /** For such tables every number whose printed name is not "-" reads back, without exception. */
  lemma RoundTripAlways(sys: System, signo: int, name: string, spelled: string, num: int)
    requires ProperTable(sys.table) && NoneLikeRealTime(sys.table)
    requires IsNameOf(sys, signo, name) && name != "-"
    requires SpellingOf(spelled, name) && IsNumberOf(sys, spelled, num)
    ensures num == signo
  {
    RoundTrip(sys, signo, name, spelled, num);
    hide IsNameOf, SpellingOf, IsNumberOf, Named;
    if signo == 0 {
      ZeroNotShadowed(sys);
    } else if k :| 0 <= k < |sys.table| && UpperAll(sys.table[k].name) == UnlistedName(sys, signo) {
      ProperName(sys.table, k);
      assert UpperAll(sys.table[k].name)[0] == sys.table[k].name[0];
    }
  }

  /** And RTMAX-n reads as the n-th number below the last, for every n in the range and no other. */
  lemma MaxReads(sys: System, n: nat, num: int)
    requires NoneLikeRealTime(sys.table) && IsNumberOf(sys, "RTMAX-" + Decimal(n), num)
    ensures num == if n <= sys.rtmax - sys.rtmin then sys.rtmax - n else -1
  {
    var d := Decimal(n);
    var name := "RTMAX-" + d;
    LetterIsNoNumber(name);
    NotSig(name);
    forall k | 0 <= k < |sys.table|
      ensures !Matches(sys.table[k], name)
    {
    }
    DecimalValue(n);
    DigitsStay(d);
    assert UpperAll(name) == name;
    OffsetNumber(sys, name, "RTMAX-", d);
    hide RealTimeNumber, RealTimeMeans, Strtol, Matches, HasPrefix;
    RealTimeExact(sys, name, num);
  }

  /** A table that gives the name RTMIN to signal 7: number 34 prints as RTMIN, which reads as another. */
  lemma ShadowedRealTime(num: int)
    ensures var sys := System([Entry("RTMIN", 7)], 34, 64);
            && ProperTable(sys.table) && IsNameOf(sys, 34, "RTMIN")
            && (IsNumberOf(sys, "RTMIN", num) ==> num != 34)
  {
    var sys := System([Entry("RTMIN", 7)], 34, 64);
    ShadowingTable(sys, "RTMIN");
    hide *;
    if IsNumberOf(sys, "RTMIN", num) {
      RoundTrip(sys, 34, "RTMIN", "RTMIN", num);
    }
  }

  lemma ShadowingTable(sys: System, name: string)
    requires sys == System([Entry(name, 7)], 34, 64) && name == "RTMIN"
    ensures ProperTable(sys.table) && Shadowed(sys, 34) && IsNameOf(sys, 34, name) && name != "-"
    ensures SpellingOf(name, name)
  {
    NotSig(name);
    assert UpperAll(name) == name;
    hide HasPrefix;
    assert sys.table[0].name == name && |name| == 5;
  }

  lemma NotSig(name: string)
    requires |name| >= 3 && name[0] == 'R'
    ensures !HasPrefix(name, "SIG")
  {
    assert UpperAll(name[..3])[0] == 'R' != "SIG"[0];
  }

  lemma ZeroNotShadowed(sys: System)
    requires ProperTable(sys.table)
    ensures !Shadowed(sys, 0)
  {
    forall k | 0 <= k < |sys.table|
      ensures UpperAll(sys.table[k].name) != "0"
    {
      assert UpperAll(sys.table[k].name)[0] == sys.table[k].name[0];
    }
  }

  lemma ListedRoundTrip(table: seq<Entry>, k: nat, spelled: string)
    requires ProperTable(table) && k < |table| && SpellingOf(spelled, table[k].name)
    ensures Strtol(spelled).1 == 0
    ensures var s := if HasPrefix(spelled, "SIG") then spelled[3..] else spelled;
            Matches(table[k], s) && forall i :: 0 <= i < |table| && Matches(table[i], s) ==> i == k
  {
    var name := table[k].name;
    LetterSpelling(spelled, name);
    StrippedSpelling(spelled, name);
    FirstMatch(table, k, if HasPrefix(spelled, "SIG") then spelled[3..] else spelled);
  }

  lemma ZeroSpelling(spelled: string)
    requires SpellingOf(spelled, "0")
    ensures Strtol(spelled) == (0, 1) && |spelled| == 1
  {
    assert UpperAll("0") == "0";
    assert |spelled| == |UpperAll(spelled)|;
    assert Upper(spelled[0]) == UpperAll(spelled)[0] == '0';
    assert Decimal(0) == "0" == spelled;
    StrtolDecimal(0);
  }

  lemma RealTimeRoundTrip(sys: System, signo: int, spelled: string)
    requires ProperTable(sys.table) && signo != 0 && (signo == sys.rtmin || sys.rtmin < signo <= sys.rtmax)
    requires SpellingOf(spelled, UnlistedName(sys, signo))
    ensures Strtol(spelled).1 == 0
    ensures var s := if HasPrefix(spelled, "SIG") then spelled[3..] else spelled;
            RealTimeNumber(sys, s) == signo
            && forall i :: 0 <= i < |sys.table| ==>
                 (Matches(sys.table[i], s) <==> UpperAll(sys.table[i].name) == UnlistedName(sys, signo))
  {
    hide ProperTable, SpellingOf, UnlistedName, RealTimeNumber, Matches, Strtol;
    RealTimeName(sys, signo);
    var name := UnlistedName(sys, signo);
    LetterSpelling(spelled, name);
    assert name != "0" by {
      assert |"0"| == 1;
    }
    StrippedSpelling(spelled, name);
    var s := if HasPrefix(spelled, "SIG") then spelled[3..] else spelled;
    RealTimeSpelling(sys, signo, s);
    forall i | 0 <= i < |sys.table|
      ensures Matches(sys.table[i], s) <==> UpperAll(sys.table[i].name) == name
    {
      ProperName(sys.table, i);
      MatchesCapital(sys.table[i], s, name);
    }
  }

  lemma ProperName(table: seq<Entry>, i: nat)
    requires ProperTable(table) && i < |table|
    ensures table[i].name != [] && 'A' <= table[i].name[0] <= 'Z' && !HasPrefix(table[i].name, "SIG")
  {
  }

  lemma MatchesCapital(e: Entry, s: string, name: string)
    requires e.name != [] && 'A' <= e.name[0] <= 'Z' && name != [] && UpperAll(s) == name
    ensures Matches(e, s) <==> UpperAll(e.name) == name
  {
    assert |s| == |name| && Upper(s[0]) == UpperAll(s)[0];
    assert UpperAll(e.name)[0] == e.name[0];
  }

  // ----- The listings -----------------------------------------------------------------

  /** mapstruct_cmp_num */
  function CmpNum(a: Entry, b: Entry): int {
    if a.num < b.num then -1 else if a.num > b.num then 1 else 0
  }

  /** sizeof(mapstruct): a pointer and an int, padded. */
  const MAPSTRUCT_SIZE: nat := 16

  /** After sorting, the first entry of each group is the one the table lists first. */
  lemma FirstOfGroup(table: seq<Entry>, sorted: seq<Entry>, j: nat)
    requires Strutils.StablySorted(table, CmpNum, sorted) && j < |sorted|
    requires j == 0 || sorted[j - 1].num != sorted[j].num
    ensures exists k :: FirstWith(table, sorted[j].num, k) && table[k] == sorted[j]
  {
    var p: seq<nat> :| Strutils.StablySortedBy(table, CmpNum, p, sorted);
    Strutils.UsesEveryPosition(table, CmpNum, p, sorted);
    SortedBy(table, p, sorted, j);
    hide *;
    forall i | 0 <= i < p[j]
      ensures table[i].num != sorted[j].num
    {
      assert i in p;
      var m :| 0 <= m < |p| && p[m] == i;
      if m < j {
        SortedBy(table, p, sorted, m);
        NumOrder(table, p, sorted, j - 1, j);
        if m < j - 1 {
          NumOrder(table, p, sorted, m, j - 1);
        }
      } else {
        NumOrder(table, p, sorted, j, m);
      }
    }
    FirstWithIs(table, sorted[j].num, p[j]);
  }

  lemma FirstWithIs(table: seq<Entry>, signo: int, k: nat)
    requires k < |table| && table[k].num == signo && forall i :: 0 <= i < k ==> table[i].num != signo
    ensures FirstWith(table, signo, k)
  {
  }

  lemma SortedBy(table: seq<Entry>, p: seq<nat>, sorted: seq<Entry>, j: nat)
    requires Strutils.StablySortedBy(table, CmpNum, p, sorted) && j < |sorted|
    ensures |p| == |sorted| == |table| && p[j] < |table| && sorted[j] == table[p[j]]
  {
  }

  /** Numbers ascend, and the positions of equal ones do. */
  lemma NumOrder(table: seq<Entry>, p: seq<nat>, sorted: seq<Entry>, a: nat, b: nat)
    requires Strutils.StablySortedBy(table, CmpNum, p, sorted) && a < b < |sorted|
    ensures |p| == |sorted| && p[a] < |table| && p[b] < |table|
    ensures table[p[a]].num <= table[p[b]].num && sorted[a].num == table[p[a]].num && sorted[b].num == table[p[b]].num
    ensures p[a] >= p[b] ==> table[p[a]].num < table[p[b]].num
  {
    assert Strutils.Before(table, CmpNum, p[a], p[b]);
  }

  /** The sorted copy is ascending and has exactly the table's entries. */
  lemma SortedCopy(table: seq<Entry>, sorted: seq<Entry>)
    requires Strutils.StablySorted(table, CmpNum, sorted)
    ensures |sorted| == |table|
    ensures forall i, j :: 0 <= i < j < |sorted| ==> sorted[i].num <= sorted[j].num
    ensures forall k :: 0 <= k < |table| ==> table[k] in sorted
    ensures forall k :: 0 <= k < |sorted| ==> sorted[k] in table
  {
    var p: seq<nat> :| Strutils.StablySortedBy(table, CmpNum, p, sorted);
    Strutils.UsesEveryPosition(table, CmpNum, p, sorted);
    forall i, j | 0 <= i < j < |sorted|
      ensures sorted[i].num <= sorted[j].num
    {
      assert Strutils.Before(table, CmpNum, p[i], p[j]);
    }
    forall k | 0 <= k < |table|
      ensures table[k] in sorted
    {
      assert k in p;
      var m :| 0 <= m < |p| && p[m] == k;
      assert sorted[m] == table[k];
    }
  }

  /**
   * A listing of the table: ascending, every number other than 0 once, under the name
   * signal_number_to_name gives it.
   */
  ghost predicate Listing(sys: System, visited: seq<Entry>) {
    && (forall i, j :: 0 <= i < j < |visited| ==> visited[i].num < visited[j].num)
    && (forall i :: 0 <= i < |visited| ==>
          visited[i].num != 0 && visited[i] in sys.table && IsNameOf(sys, visited[i].num, visited[i].name))
    && (forall k :: 0 <= k < |sys.table| && sys.table[k].num != 0 ==>
          exists i :: 0 <= i < |visited| && visited[i].num == sys.table[k].num)
  }

  /** Every number other than 0 among `es` is in `visited`. */
  ghost predicate Covers(visited: seq<Entry>, es: seq<Entry>) {
    forall j :: 0 <= j < |es| && es[j].num != 0 ==>
      exists a :: 0 <= a < |visited| && visited[a].num == es[j].num
  }

  /** The listing of the first `i` entries of the sorted copy. */
  ghost predicate ListingSoFar(sys: System, sorted: seq<Entry>, i: nat, lastseen: int, visited: seq<Entry>) {
    && i <= |sorted|
    && lastseen == (if i == 0 then 0 else sorted[i - 1].num)
    && (forall a, b :: 0 <= a < b < |visited| ==> visited[a].num < visited[b].num)
    && (forall a :: 0 <= a < |visited| ==>
          && 0 != visited[a].num <= lastseen && visited[a] in sys.table
          && IsNameOf(sys, visited[a].num, visited[a].name))
    && Covers(visited, sorted[..i])
  }

  lemma CoversOne(visited: seq<Entry>, es: seq<Entry>, e: Entry)
    requires Covers(visited, es)
    ensures Covers(visited + [e], es + [e])
    ensures (e.num == 0 || exists a :: 0 <= a < |visited| && visited[a].num == e.num) ==>
              Covers(visited, es + [e])
  {
    forall j | 0 <= j < |es + [e]| && (es + [e])[j].num != 0
      ensures exists a :: 0 <= a < |visited + [e]| && (visited + [e])[a].num == (es + [e])[j].num
    {
      if j < |es| {
        var a :| 0 <= a < |visited| && visited[a].num == es[j].num;
        assert (visited + [e])[a] == visited[a];
      } else {
        assert (visited + [e])[|visited|] == e;
      }
    }
  }

  /** A number that differs from the one before it starts a new group, and is larger. */
  lemma GroupStart(sys: System, sorted: seq<Entry>, i: nat, lastseen: int)
    requires Strutils.StablySorted(sys.table, CmpNum, sorted) && i < |sorted|
    requires forall k :: 0 <= k < |sys.table| ==> sys.table[k].num >= 0
    requires lastseen == if i == 0 then 0 else sorted[i - 1].num
    requires sorted[i].num != lastseen
    ensures sorted[i] in sys.table && IsNameOf(sys, sorted[i].num, sorted[i].name)
    ensures lastseen < sorted[i].num
  {
    SortedCopy(sys.table, sorted);
    FirstOfGroup(sys.table, sorted, i);
    assert sorted[i] in sys.table;
  }

  lemma NewGroup(sys: System, sorted: seq<Entry>, i: nat, lastseen: int, visited: seq<Entry>)
    requires ListingSoFar(sys, sorted, i, lastseen, visited) && i < |sorted|
    requires lastseen < sorted[i].num && 0 != sorted[i].num
    requires sorted[i] in sys.table && IsNameOf(sys, sorted[i].num, sorted[i].name)
    ensures ListingSoFar(sys, sorted, i + 1, sorted[i].num, visited + [sorted[i]])
  {
    hide IsNameOf, Covers;
    CoversOne(visited, sorted[..i], sorted[i]);
    assert sorted[..i + 1] == sorted[..i] + [sorted[i]];
  }

  lemma SameGroup(sys: System, sorted: seq<Entry>, i: nat, lastseen: int, visited: seq<Entry>)
    requires ListingSoFar(sys, sorted, i, lastseen, visited) && i < |sorted|
    requires sorted[i].num == lastseen
    ensures ListingSoFar(sys, sorted, i + 1, lastseen, visited)
  {
    CoversOne(visited, sorted[..i], sorted[i]);
    assert sorted[..i + 1] == sorted[..i] + [sorted[i]];
    if sorted[i].num != 0 {
      assert sorted[i - 1].num == sorted[i].num && sorted[..i][i - 1] == sorted[i - 1];
    }
  }

  /**
   * The loop shared by unix_print_signals and pretty_print_signals: `visited` are the
   * entries passed to printf, in order.
   */
  method PrintSignals(sys: System) returns (visited: seq<Entry>)
    requires |sys.table| != 1 && |sys.table| <= 255
    requires forall k :: 0 <= k < |sys.table| ==> sys.table[k].num >= 0
    ensures Listing(sys, visited)
  {
    var table := sys.table;
    var sigtable2 := new Entry[|table|](i requires 0 <= i < |table| => table[i]);
    assert sigtable2[..] == table;
    CmpNumOrder();
    Strutils.StableSort(sigtable2, MAPSTRUCT_SIZE, CmpNum);
    ghost var sorted := sigtable2[..];
    SortedCopy(table, sorted);
    var lastseen := 0;
    visited := [];
    var i := 0;
    assert ListingSoFar(sys, sorted, 0, 0, []);
    hide *;
    while i < |table|
      invariant 0 <= i <= |table| && sigtable2[..] == sorted
      invariant ListingSoFar(sys, sorted, i, lastseen, visited)
    {
      assert sigtable2[i] == sorted[i];
      lastseen, visited := VisitNext(sys, sorted, i, sigtable2[i], lastseen, visited);
      i := i + 1;
    }
    ListingComplete(sys, sorted, lastseen, visited);
  }

  /** One turn of that loop: an entry is printed when its number differs from the one before. */
  method VisitNext(sys: System, ghost sorted: seq<Entry>, ghost i: nat, e: Entry, lastseen0: int, visited0: seq<Entry>)
    returns (lastseen: int, visited: seq<Entry>)
    requires Strutils.StablySorted(sys.table, CmpNum, sorted)
    requires forall k :: 0 <= k < |sys.table| ==> sys.table[k].num >= 0
    requires i < |sorted| && e == sorted[i] && ListingSoFar(sys, sorted, i, lastseen0, visited0)
    ensures ListingSoFar(sys, sorted, i + 1, lastseen, visited)
  {
    lastseen, visited := lastseen0, visited0;
    LastSeenIs(sys, sorted, i, lastseen, visited);
    hide *;
    if e.num != lastseen {
      GroupStart(sys, sorted, i, lastseen);
      NewGroup(sys, sorted, i, lastseen, visited);
      visited := visited + [e];
      lastseen := e.num;
    } else {
      SameGroup(sys, sorted, i, lastseen, visited);
    }
  }

  lemma LastSeenIs(sys: System, sorted: seq<Entry>, i: nat, lastseen: int, visited: seq<Entry>)
    requires ListingSoFar(sys, sorted, i, lastseen, visited)
    ensures i <= |sorted| && lastseen == if i == 0 then 0 else sorted[i - 1].num
  {
  }

  lemma CmpNumOrder()
    ensures Strutils.TotalPreorder(CmpNum)
  {
  }

  lemma ListingComplete(sys: System, sorted: seq<Entry>, lastseen: int, visited: seq<Entry>)
    requires Strutils.StablySorted(sys.table, CmpNum, sorted)
    requires ListingSoFar(sys, sorted, |sorted|, lastseen, visited)
    ensures Listing(sys, visited)
  {
    SortedCopy(sys.table, sorted);
    assert sorted[..|sorted|] == sorted;
    hide IsNameOf, Covers, Strutils.StablySorted;
    forall k | 0 <= k < |sys.table| && sys.table[k].num != 0
      ensures exists i :: 0 <= i < |visited| && visited[i].num == sys.table[k].num
    {
      CoveredIs(visited, sorted, sys.table[k]);
    }
  }

  lemma CoveredIs(visited: seq<Entry>, es: seq<Entry>, e: Entry)
    requires Covers(visited, es) && e in es && e.num != 0
    ensures exists i :: 0 <= i < |visited| && visited[i].num == e.num
  {
    var j :| 0 <= j < |es| && es[j] == e;
  }

  /** There is only one listing, so both printers visit the same names in the same order. */
  lemma {:induction false} ListingUnique(sys: System, v: seq<Entry>, w: seq<Entry>)
    requires Listing(sys, v) && Listing(sys, w)
    ensures v == w
  {
    forall i | 0 <= i < |v|
      ensures v[i] in w
    {
      ListedIn(sys, v, w, i);
    }
    forall i | 0 <= i < |w|
      ensures w[i] in v
    {
      ListedIn(sys, w, v, i);
    }
    forall e
      ensures e in v <==> e in w
    {
    }
    assert Ascending(v, (e: Entry) => e.num) && Ascending(w, (e: Entry) => e.num);
    AscendingSame(v, w, (e: Entry) => e.num);
  }

  lemma ListedIn(sys: System, v: seq<Entry>, w: seq<Entry>, i: nat)
    requires Listing(sys, v) && Listing(sys, w) && i < |v|
    ensures v[i] in w
  {
    assert v[i] in sys.table;
    var k :| 0 <= k < |sys.table| && sys.table[k] == v[i];
    var j :| 0 <= j < |w| && w[j].num == v[i].num;
    NameUnique(sys, v[i].num, v[i].name, w[j].name);
    assert w[j] == v[i];
  }

  ghost predicate Ascending<T>(v: seq<T>, key: T -> int) {
    forall i, j :: 0 <= i < j < |v| ==> key(v[i]) < key(v[j])
  }

  ghost predicate SameElements<T(!new)>(v: seq<T>, w: seq<T>) {
    forall e :: e in v <==> e in w
  }

  /** Ascending lists of the same elements are the same list. */
  lemma {:induction false} AscendingSame<T(!new)>(v: seq<T>, w: seq<T>, key: T -> int)
    requires Ascending(v, key) && Ascending(w, key)
    requires SameElements(v, w)
    ensures v == w
  {
    assert (v != [] ==> v[0] in w) && (w != [] ==> w[0] in v);
    if v != [] {
      FrontsSame(v, w, key);
      AscendingSame(v[..|v| - 1], w[..|w| - 1], key);
      assert v == v[..|v| - 1] + [v[|v| - 1]] && w == w[..|w| - 1] + [w[|w| - 1]];
    }
  }

  lemma FrontsSame<T(!new)>(v: seq<T>, w: seq<T>, key: T -> int)
    requires v != [] && w != [] && Ascending(v, key) && Ascending(w, key)
    requires SameElements(v, w)
    ensures v[|v| - 1] == w[|w| - 1]
    ensures Ascending(v[..|v| - 1], key) && Ascending(w[..|w| - 1], key)
    ensures SameElements(v[..|v| - 1], w[..|w| - 1])
  {
    assert v[|v| - 1] in w && w[|w| - 1] in v;
    LastTops(v, w[|w| - 1], key);
    LastTops(w, v[|v| - 1], key);
    var v', w' := v[..|v| - 1], w[..|w| - 1];
    forall e
      ensures e in v' <==> e in w'
    {
      InFront(v, e, key);
      InFront(w, e, key);
    }
  }

  lemma LastTops<T>(v: seq<T>, e: T, key: T -> int)
    requires v != [] && Ascending(v, key) && e in v
    ensures e == v[|v| - 1] || key(e) < key(v[|v| - 1])
  {
  }

  lemma InFront<T>(v: seq<T>, e: T, key: T -> int)
    requires v != [] && Ascending(v, key)
    ensures e in v[..|v| - 1] <==> e in v && e != v[|v| - 1]
  {
    assert v == v[..|v| - 1] + [v[|v| - 1]];
  }
}
