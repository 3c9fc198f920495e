/**
 * src/vmstat.c: idle ticks that run backwards for a moment, rounded percentages, and
 * columns that recover from overflowing fields.
 */
module Vmstat {
  import opened Decimals

  const INT_MIN: int := -0x8000_0000
  const INT_MAX: int := 0x7fff_ffff
  const TWO64: int := 0x1_0000_0000_0000_0000

  /** The tick differences of one sample, already added up by kind. */
  datatype Sample = Sample(cpuUse: int, cpuSys: int, cpuIdl: int, cpuIow: int, cpuSto: int, cpuGue: int)

  /** The six percentages of a line. */
  datatype Percent = Percent(us: int, sy: int, id: int, wa: int, st: int, gu: int)

  /** `(int)x` */
  function ToInt(x: int): (r: int)
    ensures INT_MIN <= r <= INT_MAX
    ensures INT_MIN <= x <= INT_MAX ==> r == x
    ensures (r - x) % 0x1_0000_0000 == 0
  {
    var m := x % 0x1_0000_0000;
    if m <= INT_MAX then m else m - 0x1_0000_0000
  }

  /** C's division truncates. */
  function DivC(a: int, b: int): int
    requires b != 0
  {
    if a >= 0 then a / b else -((-a) / b)
  }

  // ----- Idle debt --------------------------------------------------------------------------

  function RawSum(samples: seq<Sample>): int {
    if samples == [] then 0 else RawSum(samples[..|samples| - 1]) + samples[|samples| - 1].cpuIdl
  }

  function Sum(xs: seq<int>): int {
    if xs == [] then 0 else Sum(xs[..|xs| - 1]) + xs[|xs| - 1]
  }

  /** The highest the raw idle sum has been, 0 at the start. */
  function HighWater(samples: seq<Sample>): (m: int)
    ensures m >= 0 && m >= RawSum(samples)
    ensures forall k :: 0 <= k <= |samples| ==> RawSum(samples[..k]) <= m
    ensures exists k :: 0 <= k <= |samples| && m == RawSum(samples[..k])
  {
    assert samples[..|samples|] == samples;
    if samples == [] then 0
    else
      var n := |samples| - 1;
      var m := HighWater(samples[..n]);
      assert forall k :: 0 <= k <= n ==> samples[..n][..k] == samples[..k];
      if RawSum(samples) > m then RawSum(samples) else m
  }

  /** Neither a sample nor a sample with the debt before it leaves the range of an int. */
  ghost predicate FitsInt(samples: seq<Sample>) {
    forall k :: 0 <= k < |samples| ==>
      && INT_MIN <= samples[k].cpuIdl <= INT_MAX
      && INT_MIN <= samples[k].cpuIdl + RawSum(samples[..k]) - HighWater(samples[..k])
  }

  /** The other ticks do not run backwards, and guest ticks are among the user ticks. */
  predicate Sane(s: Sample) {
    s.cpuUse >= 0 && s.cpuSys >= 0 && s.cpuIow >= 0 && s.cpuSto >= 0 && 0 <= s.cpuGue <= s.cpuUse
  }

  /** `Div / 2UL`: the division is unsigned. */
  function Half(total: int): int {
    if total >= 0 then total / 2 else (total + TWO64) / 2
  }

  /** A percentage: half the divisor is added before the division truncates. */
  function Rounded(x: int, total: int): int
    requires total != 0
  {
    DivC(100 * x + Half(total), total)
  }

  /** Rounding for any numbers: the remainder is smaller than the divisor and on the dividend's side of 0. */
  lemma RoundedTruncates(x: int, total: int) returns (rest: int)
    requires total != 0
    ensures var v := 100 * x + if total > 0 then total / 2 else (total + TWO64) / 2;
            && v == Rounded(x, total) * total + rest
            && (if total > 0 then -total < rest < total else total < rest < -total)
            && (rest > 0 ==> v > 0) && (rest < 0 ==> v < 0)
  {
    hide DivC;
    rest := Remainder(100 * x + Half(total), total);
  }

  lemma Remainder(a: int, b: int) returns (m: int)
    requires b != 0
    ensures a == DivC(a, b) * b + m
    ensures (if b > 0 then -b < m < b else b < m < -b) && (m > 0 ==> a > 0) && (m < 0 ==> a < 0)
  {
    hide *;
    m := if a >= 0 then RemainderUp(a, b) else -RemainderUp(-a, b);
    if a >= 0 {
      DivCUp(a, b);
    } else {
      DivCDown(a, b);
    }
  }

  function RemainderUp(a: int, b: int): (m: int)
    requires a >= 0 && b != 0
    ensures 0 <= m < (if b > 0 then b else -b) && m <= a
  {
    NotMore(a, b);
    a % b
  }

  lemma NotMore(a: int, b: int)
    requires a >= 0 && b != 0
    ensures a % b <= a
  {
  }

  lemma DivCUp(a: int, b: int)
    requires a >= 0 && b != 0
    ensures a == DivC(a, b) * b + RemainderUp(a, b)
  {
  }

  lemma DivCDown(a: int, b: int)
    requires a < 0 && b != 0
    ensures a == DivC(a, b) * b - RemainderUp(-a, b)
  {
    DivCUp(-a, b);
  }

  /** One rounded share lies within half a percent of the true one. */
  lemma RoundedShare(x: int, total: int)
    requires 0 <= x && 0 < total
    ensures var r := Rounded(x, total);
            200 * x - total < 2 * (r * total) <= 200 * x + total
  {
    var v := 100 * x + total / 2;
    assert v == v / total * total + v % total;
  }

  lemma WholeShare()
    ensures Rounded(1, 1) == 100 && Rounded(0, 1) == 0
  {
  }

  lemma SixTimes(a: int, b: int, c: int, d: int, e: int, f: int, t: int)
    ensures (a + b + c + d + e + f) * t == a * t + b * t + c * t + d * t + e * t + f * t
  {
  }

  lemma NearHundred(s: int, t: int)
    requires t > 0 && 194 * t < 2 * (s * t) <= 206 * t
    ensures 98 <= s <= 103
  {
    assert s <= 97 ==> s * t <= 97 * t;
    assert s >= 104 ==> s * t >= 104 * t;
  }

  /** Six shares of a total add up to a hundred, give or take rounding. */
  lemma SharesTotal(a: int, b: int, c: int, d: int, e: int, f: int)
    requires 0 <= a && 0 <= b && 0 <= c && 0 <= d && 0 <= e && 0 <= f
    requires a + b + c + d + e + f > 0
    ensures var t := a + b + c + d + e + f;
            98 <= Rounded(a, t) + Rounded(b, t) + Rounded(c, t) + Rounded(d, t) + Rounded(e, t) + Rounded(f, t) <= 103
  {
    var t := a + b + c + d + e + f;
    RoundedShare(a, t);
    RoundedShare(b, t);
    RoundedShare(c, t);
    RoundedShare(d, t);
    RoundedShare(e, t);
    RoundedShare(f, t);
    hide Rounded;
    SixTimes(Rounded(a, t), Rounded(b, t), Rounded(c, t), Rounded(d, t), Rounded(e, t), Rounded(f, t), t);
    NearHundred(Rounded(a, t) + Rounded(b, t) + Rounded(c, t) + Rounded(d, t) + Rounded(e, t) + Rounded(f, t), t);
  }

  ghost predicate TotalsAHundred(p: Percent) {
    98 <= p.us + p.sy + p.id + p.wa + p.st + p.gu <= 103
  }

  /** The sample loop of new_format: the idle ticks as corrected, and the lines shown. */
  method SampleLoop(samples: seq<Sample>) returns (idle: seq<int>, debt: int, shown: seq<Percent>)
    requires FitsInt(samples)
    ensures |idle| == |shown| == |samples|
    ensures forall k :: 0 <= k < |samples| ==> idle[k] >= 0
    ensures debt <= 0 && Sum(idle) + debt == RawSum(samples)
    ensures Sum(idle) == HighWater(samples)
    ensures forall k :: 0 <= k < |samples| && Sane(samples[k]) ==> TotalsAHundred(shown[k])
  {
    idle, debt, shown := [], 0, [];
    var i := 0;
    assert samples[..0] == [] && Corrected(samples, 0, idle, debt) && Totalled(samples, shown);
    hide *;
    while i < |samples|
      invariant 0 <= i <= |samples| && |shown| == i
      invariant Corrected(samples, i, idle, debt) && Totalled(samples, shown)
    {
      CorrectedNext(samples, i, idle, debt);
      var cpuIdl, debt' := PayDebt(samples[i].cpuIdl, debt);
      var p := Percentages(samples[i], cpuIdl);
      CorrectedStep(samples, i, idle, debt, cpuIdl, debt');
      TotalledStep(samples, shown, p);
      idle, debt, shown := idle + [cpuIdl], debt', shown + [p];
      i := i + 1;
    }
    CorrectedEnd(samples, idle, debt, shown);
  }

  lemma CorrectedEnd(samples: seq<Sample>, idle: seq<int>, debt: int, shown: seq<Percent>)
    requires Corrected(samples, |samples|, idle, debt) && Totalled(samples, shown)
    ensures |idle| == |samples| && forall k :: 0 <= k < |samples| ==> idle[k] >= 0
    ensures debt <= 0 && Sum(idle) + debt == RawSum(samples) && Sum(idle) == HighWater(samples)
    ensures |shown| <= |samples|
    ensures forall k :: 0 <= k < |shown| && Sane(samples[k]) ==> TotalsAHundred(shown[k])
  {
    assert samples[..|samples|] == samples;
  }

  /** Sane samples gave lines that total a hundred. */
  ghost predicate Totalled(samples: seq<Sample>, shown: seq<Percent>) {
    |shown| <= |samples| && forall k :: 0 <= k < |shown| && Sane(samples[k]) ==> TotalsAHundred(shown[k])
  }

  lemma TotalledStep(samples: seq<Sample>, shown: seq<Percent>, p: Percent)
    requires Totalled(samples, shown) && |shown| < |samples|
    requires Sane(samples[|shown|]) ==> TotalsAHundred(p)
    ensures Totalled(samples, shown + [p])
  {
    hide Sane, TotalsAHundred;
  }

  /** After `i` samples: what was shown as idle, and what is still owed. */
  ghost predicate Corrected(samples: seq<Sample>, i: nat, idle: seq<int>, debt: int) {
    && i <= |samples| && |idle| == i
    && (forall k :: 0 <= k < i ==> idle[k] >= 0)
    && debt == RawSum(samples[..i]) - HighWater(samples[..i]) && Sum(idle) == HighWater(samples[..i])
  }

  lemma CorrectedNext(samples: seq<Sample>, i: nat, idle: seq<int>, debt: int)
    requires FitsInt(samples) && i < |samples| && Corrected(samples, i, idle, debt)
    ensures debt <= 0 && INT_MIN <= samples[i].cpuIdl <= INT_MAX && INT_MIN <= samples[i].cpuIdl + debt
  {
  }

  lemma CorrectedStep(samples: seq<Sample>, i: nat, idle: seq<int>, debt: int, cpuIdl: int, debt': int)
    requires i < |samples| && Corrected(samples, i, idle, debt)
    requires cpuIdl >= 0 && debt' <= 0 && cpuIdl + debt' == samples[i].cpuIdl + debt && (cpuIdl == 0 || debt' == 0)
    ensures Corrected(samples, i + 1, idle + [cpuIdl], debt')
  {
    OneMore(samples, i);
    SumOne(idle, cpuIdl);
    hide HighWater, RawSum, Sum;
  }

  /** Idle can run backwards for a moment: what is owed is taken from the next sample. */
  method PayDebt(raw: int, debt0: int) returns (cpuIdl: int, debt: int)
    requires INT_MIN <= raw <= INT_MAX && INT_MIN <= raw + debt0 && debt0 <= 0
    ensures cpuIdl >= 0 && debt <= 0 && cpuIdl + debt == raw + debt0
    ensures cpuIdl == 0 || debt == 0
  {
    cpuIdl, debt := raw, debt0;
    if debt != 0 {
      cpuIdl := ToInt(cpuIdl) + debt;
      debt := 0;
    }
    if ToInt(cpuIdl) < 0 {
      debt := ToInt(cpuIdl);
      cpuIdl := 0;
    }
  }

  lemma SumOne(xs: seq<int>, x: int)
    ensures Sum(xs + [x]) == Sum(xs) + x
  {
    assert (xs + [x])[..|xs|] == xs;
  }

  lemma OneMore(samples: seq<Sample>, i: nat)
    requires i < |samples|
    ensures RawSum(samples[..i + 1]) == RawSum(samples[..i]) + samples[i].cpuIdl
    ensures HighWater(samples[..i + 1]) ==
              if RawSum(samples[..i + 1]) > HighWater(samples[..i]) then RawSum(samples[..i + 1])
              else HighWater(samples[..i])
  {
    assert samples[..i + 1][..i] == samples[..i];
  }

  /** The divisor, the guest correction and the six divisions. */
  method Percentages(s: Sample, cpuIdl0: int) returns (p: Percent)
    requires cpuIdl0 >= 0
    ensures Sane(s) ==> TotalsAHundred(p)
    ensures var total := s.cpuUse + s.cpuSys + cpuIdl0 + s.cpuIow + s.cpuSto;
            var use := if s.cpuUse >= s.cpuGue then s.cpuUse - s.cpuGue else 0;
            && (total != 0 ==> p == Percent(Rounded(use, total), Rounded(s.cpuSys, total), Rounded(cpuIdl0, total),
                                            Rounded(s.cpuIow, total), Rounded(s.cpuSto, total), Rounded(s.cpuGue, total)))
            && (total == 0 && Sane(s) ==> p == Percent(0, 0, 100, 0, 0, 0))
  {
    var cpuUse, cpuIdl := s.cpuUse, cpuIdl0;
    var div := cpuUse + s.cpuSys + cpuIdl + s.cpuIow + s.cpuSto;
    if div == 0 {
      div := 1;
      cpuIdl := 1;
    }
    if cpuUse >= s.cpuGue {
      cpuUse := cpuUse - s.cpuGue;
    } else {
      cpuUse := 0;
    }
    WholeShare();
    hide Rounded;
    p := Percent(Rounded(cpuUse, div), Rounded(s.cpuSys, div), Rounded(cpuIdl, div),
                 Rounded(s.cpuIow, div), Rounded(s.cpuSto, div), Rounded(s.cpuGue, div));
    if Sane(s) {
      SharesTotal(cpuUse, s.cpuSys, cpuIdl, s.cpuIow, s.cpuSto, s.cpuGue);
    }
  }

  // ----- Column skew ---------------------------------------------------------------------------

  /** A field: its declared width and its value. */
  datatype Field = Field(width: nat, value: nat)

  function Digits(n: nat): nat {
    |Decimal(n)|
  }

  function Blanks(n: nat): (s: string)
    ensures |s| == n && forall i :: 0 <= i < n ==> s[i] == ' '
  {
    seq(n, _ => ' ')
  }

  /** `%*lu` */
  function Printed(width: nat, value: nat): (s: string)
    ensures |s| == if Digits(value) > width then Digits(value) else width
  {
    (if Digits(value) < width then Blanks(width - Digits(value)) else "") + Decimal(value)
  }

  /** Where a field would end if no field were ever too long, blanks between fields included. */
  function DeclaredEnd(fields: seq<Field>): int {
    if fields == [] then 0
    else DeclaredEnd(fields[..|fields| - 1]) + fields[|fields| - 1].width + if |fields| > 1 then 1 else 0
  }

  /** By how much the fields from `j` on are longer than declared, taken together. */
  function Excess(fields: seq<Field>, j: nat): int
    requires j <= |fields|
    decreases |fields|
  {
    if j == |fields| then 0
    else
      var last := fields[|fields| - 1];
      Excess(fields[..|fields| - 1], j) + Digits(last.value) - last.width
  }

  /** The least lag that room for every digit leaves: the worst run of fields up to here. */
  ghost predicate LeastLag(fields: seq<Field>, lag: int) {
    && (forall j :: 0 <= j <= |fields| ==> Excess(fields, j) <= lag)
    && (exists j :: 0 <= j <= |fields| && lag == Excess(fields, j))
  }

  /** Field `i` ends as far left as the fields up to it allow. */
  ghost predicate LagsLeast(fields: seq<Field>, i: nat, end: nat)
    requires i < |fields|
  {
    LeastLag(fields[..i + 1], end - DeclaredEnd(fields[..i + 1]))
  }

  lemma LagsLeastIs(fields: seq<Field>, i: nat, end: nat, lag: int)
    requires i < |fields| && LeastLag(fields[..i + 1], lag) && end == DeclaredEnd(fields[..i + 1]) + lag
    ensures LagsLeast(fields, i, end)
  {
  }

  lemma LeastLagNext(fields: seq<Field>, lag: int, f: Field)
    requires LeastLag(fields, lag)
    ensures var next := lag + Digits(f.value) - f.width;
            LeastLag(fields + [f], if next > 0 then next else 0)
  {
    var now := fields + [f];
    assert now[..|fields|] == fields;
    var d := Digits(f.value) - f.width;
    forall j | 0 <= j <= |fields|
      ensures Excess(now, j) == Excess(fields, j) + d
    {
    }
    var j :| 0 <= j <= |fields| && lag == Excess(fields, j);
    assert Excess(now, j) == lag + d && Excess(now, |now|) == 0;
  }

  /**
   * Any line that loses no digit: a field ends no earlier than declared, and there is room
   * for its digits, and for a blank in front of them unless it is the first.
   */
  ghost predicate Readable(fields: seq<Field>, ends: seq<nat>) {
    && |ends| == |fields|
    && forall i :: 0 <= i < |fields| ==>
         && ends[i] >= DeclaredEnd(fields[..i + 1])
         && ends[i] >= From(ends, i) + Digits(fields[i].value)
  }

  /** Where the digits of field `i` may begin. */
  function From(ends: seq<nat>, i: nat): nat
    requires i <= |ends|
  {
    if i == 0 then 0 else ends[i - 1] + 1
  }

  /** No readable line lags less than any run of its fields forces it to. */
  lemma {:induction false} ExcessBound(fields: seq<Field>, ends: seq<nat>, i: nat, j: nat)
    requires Readable(fields, ends) && i < |fields| && j <= i + 1
    ensures Excess(fields[..i + 1], j) <= ends[i] - DeclaredEnd(fields[..i + 1])
  {
    DeclaredEndNext(fields, i);
    hide Digits, DeclaredEnd;
    assert fields[..i + 1][..i] == fields[..i];
    if j == i + 1 {
    } else if i > 0 {
      ExcessBound(fields, ends, i - 1, j);
    } else {
      NoFields(fields);
      assert Excess(fields[..0], 0) == 0;
    }
  }

  lemma NoFields(fields: seq<Field>)
    ensures DeclaredEnd(fields[..0]) == 0
  {
  }

  /** Ends that lag least make a readable line, and no readable line ends a field further left. */
  lemma LeastIsLeftmost(fields: seq<Field>, ends: seq<nat>)
    requires |ends| == |fields| && forall i :: 0 <= i < |fields| ==> LagsLeast(fields, i, ends[i])
    ensures Leftmost(fields, ends)
  {
    forall i | 0 <= i < |fields|
      ensures ends[i] >= DeclaredEnd(fields[..i + 1])
      ensures ends[i] >= From(ends, i) + Digits(fields[i].value)
    {
      LeastHasRoom(fields, ends, i);
    }
    forall other | Readable(fields, other)
      ensures NotLeftOf(other, ends)
    {
      forall i | 0 <= i < |fields|
        ensures ends[i] <= other[i]
      {
        assert LagsLeast(fields, i, ends[i]);
        var j :| 0 <= j <= i + 1 && ends[i] - DeclaredEnd(fields[..i + 1]) == Excess(fields[..i + 1], j);
        ExcessBound(fields, other, i, j);
      }
    }
  }

  lemma LeastHasRoom(fields: seq<Field>, ends: seq<nat>, i: nat)
    requires |ends| == |fields| && i < |fields|
    requires forall k :: 0 <= k <= i ==> LagsLeast(fields, k, ends[k])
    ensures ends[i] >= DeclaredEnd(fields[..i + 1])
    ensures ends[i] >= From(ends, i) + Digits(fields[i].value)
  {
    DeclaredEndNext(fields, i);
    assert fields[..i + 1][..i] == fields[..i];
    var front := fields[..i + 1];
    assert LagsLeast(fields, i, ends[i]);
    assert Excess(front, |front|) == 0;
    if i > 0 {
      assert LagsLeast(fields, i - 1, ends[i - 1]);
      assert fields[..i - 1 + 1] == fields[..i];
      var j :| 0 <= j <= i && ends[i - 1] - DeclaredEnd(fields[..i]) == Excess(fields[..i], j);
      assert Excess(front, j) == Excess(fields[..i], j) + Digits(fields[i].value) - fields[i].width;
    } else {
      NoFields(fields);
      assert Excess(front, 0) == Excess(fields[..0], 0) + Digits(fields[0].value) - fields[0].width;
    }
  }

  predicate NotLeftOf(other: seq<nat>, ends: seq<nat>) {
    |other| == |ends| && forall i :: 0 <= i < |ends| ==> ends[i] <= other[i]
  }

  /** Of all readable lines, one whose fields all end as far left as possible. */
  ghost predicate Leftmost(fields: seq<Field>, ends: seq<nat>) {
    Readable(fields, ends) && forall other: seq<nat> :: Readable(fields, other) ==> NotLeftOf(other, ends)
  }

  /** The digit-counting loop. */
  method CountDigits(value: nat) returns (digits: nat)
    ensures digits == Digits(value)
  {
    var v := value;
    digits := 1;
    while v > 9
      invariant digits + Digits(v) == Digits(value) + 1
    {
      v := v / 10;
      digits := digits + 1;
    }
  }

  /**
   * output_line: no digit is lost, and of all lines of which that is true every field ends
   * as far left as possible.
   */
  method OutputLine(fields: seq<Field>) returns (line: string, ends: seq<nat>)
    ensures |ends| == |fields|
    ensures Leftmost(fields, ends)
    ensures forall i :: 0 <= i < |fields| ==> ShownAt(line, ends[i], fields[i].value)
    ensures forall c :: 0 <= c < |line| ==>
              line[c] == ' ' || exists i :: 0 <= i < |fields| && ends[i] - Digits(fields[i].value) <= c < ends[i]
    ensures |line| == if fields == [] then 0 else ends[|fields| - 1]
  {
    line, ends := "", [];
    var skew: nat := 0;
    var k := 0;
    LinedStart(fields);
    hide *;
    while k < |fields|
      invariant 0 <= k <= |fields|
      invariant Lined(fields, k, line, ends, skew)
    {
      var text, skew' := PrintField(fields[k], skew);
      LinedNext(fields, k, line, ends, skew, text, skew');
      ends := ends + [|line| + |text|];
      line := line + text;
      if k + 1 < |fields| {
        line := line + " ";
      }
      skew := skew';
      k := k + 1;
    }
    LinedEnd(fields, line, ends, skew);
    LeastIsLeftmost(fields, ends);
  }

  /** The line after `k` fields, the blank after the last of them included. */
  ghost predicate Lined(fields: seq<Field>, k: nat, line: string, ends: seq<nat>, skew: nat) {
    Measured(fields, k, |line|, ends, skew) && AllShown(fields, ends, line) && BlankElsewhere(fields, ends, line)
  }

  /** Where the fields and the line end. */
  ghost predicate Measured(fields: seq<Field>, k: nat, n: nat, ends: seq<nat>, skew: nat) {
    && k <= |fields| && |ends| == k && LeastLag(fields[..k], skew)
    && n == DeclaredEnd(fields[..k]) + skew + (if 0 < k < |fields| then 1 else 0)
    && (forall i :: 0 <= i < k ==> LagsLeast(fields, i, ends[i]))
    && (0 < k == |fields| ==> n == ends[k - 1])
  }

  ghost predicate AllShown(fields: seq<Field>, ends: seq<nat>, line: string) {
    |ends| <= |fields| && forall i :: 0 <= i < |ends| ==> ShownAt(line, ends[i], fields[i].value)
  }

  /** Column `c` holds a digit of a field. */
  ghost predicate InField(fields: seq<Field>, ends: seq<nat>, c: nat) {
    exists i :: 0 <= i < |ends| && i < |fields| && ends[i] - Digits(fields[i].value) <= c < ends[i]
  }

  /** Apart from the digits of the fields there are only blanks. */
  ghost predicate BlankElsewhere(fields: seq<Field>, ends: seq<nat>, line: string) {
    forall c :: 0 <= c < |line| ==> line[c] == ' ' || InField(fields, ends, c)
  }

  lemma BlankElsewhereNext(fields: seq<Field>, ends: seq<nat>, line: string, text: string, more: string)
    requires BlankElsewhere(fields, ends, line) && |ends| < |fields|
    requires Digits(fields[|ends|].value) <= |text|
    requires forall c :: 0 <= c < |text| - Digits(fields[|ends|].value) ==> text[c] == ' '
    requires more == text || more == text + " "
    ensures BlankElsewhere(fields, ends + [|line| + |text|], line + more)
  {
    hide Digits;
    var ends', n := ends + [|line| + |text|], |line|;
    var k := |ends|;
    forall c | 0 <= c < |line + more|
      ensures (line + more)[c] == ' ' || InField(fields, ends', c)
    {
      if c < n {
        if InField(fields, ends, c) {
          var i :| 0 <= i < k && ends[i] - Digits(fields[i].value) <= c < ends[i];
          assert ends'[i] == ends[i];
        }
      } else if c < n + |text| && c >= n + |text| - Digits(fields[k].value) {
        assert ends'[k] == n + |text|;
      }
    }
  }

  lemma LinedStart(fields: seq<Field>)
    ensures Lined(fields, 0, "", [], 0)
  {
    assert fields[..0] == [];
    assert Excess([], 0) == 0;
  }

  lemma LinedNext(fields: seq<Field>, k: nat, line: string, ends: seq<nat>, skew: nat, text: string, skew': nat)
    requires k < |fields| && Lined(fields, k, line, ends, skew) && FieldPrinted(fields[k], skew, text, skew')
    ensures var line' := line + text;
            Lined(fields, k + 1, if k + 1 < |fields| then line' + " " else line', ends + [|line| + |text|], skew')
  {
    hide Measured, AllShown, BlankElsewhere, FieldPrinted, Digits;
    FieldText(fields[k], skew, text, skew');
    MeasuredNext(fields, k, |line|, ends, skew, |text|, skew');
    var more := if k + 1 < |fields| then text + " " else text;
    assert line + more == if k + 1 < |fields| then line + text + " " else line + text;
    AllShownNext(fields, ends, line, text, more);
    BlankElsewhereNext(fields, ends, line, text, more);
  }

  lemma MeasuredNext(fields: seq<Field>, k: nat, n: nat, ends: seq<nat>, skew: nat, size: nat, skew': nat)
    requires k < |fields| && Measured(fields, k, n, ends, skew) && FieldSize(fields[k], skew, size, skew')
    ensures |ends| == k
    ensures Measured(fields, k + 1, if k + 1 < |fields| then n + size + 1 else n + size, ends + [n + size], skew')
  {
    hide LeastLag, LagsLeast, DeclaredEnd, Digits;
    LeastLagNext(fields[..k], skew, fields[k]);
    DeclaredEndNext(fields, k);
    LagsLeastIs(fields, k, n + size, skew');
  }

  lemma FieldText(field: Field, skew0: nat, text: string, skew: nat)
    requires FieldPrinted(field, skew0, text, skew)
    ensures var d := Digits(field.value);
            && FieldSize(field, skew0, |text|, skew) && d <= |text| && text[|text| - d..] == Decimal(field.value)
            && forall c :: 0 <= c < |text| - d ==> text[c] == ' '
  {
  }

  lemma AllShownNext(fields: seq<Field>, ends: seq<nat>, line: string, text: string, more: string)
    requires |ends| < |fields| && AllShown(fields, ends, line)
    requires var v := fields[|ends|].value; Digits(v) <= |text| && text[|text| - Digits(v)..] == Decimal(v)
    requires more == text || more == text + " "
    ensures AllShown(fields, ends + [|line| + |text|], line + more)
  {
    hide ShownAt, Digits;
    var k := |ends|;
    assert more[..|text|] == text;
    ShownLast(line, more, |line| + |text|, fields[k].value);
    forall i | 0 <= i < k
      ensures ShownAt(line + more, ends[i], fields[i].value)
    {
      StillShown(line, more, ends[i], fields[i].value);
    }
  }

  lemma LinedEnd(fields: seq<Field>, line: string, ends: seq<nat>, skew: nat)
    requires Lined(fields, |fields|, line, ends, skew)
    ensures |ends| == |fields| && |line| == if fields == [] then 0 else ends[|fields| - 1]
    ensures forall i :: 0 <= i < |fields| ==> LagsLeast(fields, i, ends[i]) && ShownAt(line, ends[i], fields[i].value)
    ensures forall c :: 0 <= c < |line| ==>
              line[c] == ' ' || exists i :: 0 <= i < |fields| && ends[i] - Digits(fields[i].value) <= c < ends[i]
  {
    hide Digits;
    if fields == [] {
      NothingExceeds(fields, skew);
    }
    forall c | 0 <= c < |line| && line[c] != ' '
      ensures exists i :: 0 <= i < |fields| && ends[i] - Digits(fields[i].value) <= c < ends[i]
    {
      assert InField(fields, ends, c);
    }
  }

  lemma NothingExceeds(fields: seq<Field>, lag: int)
    requires fields == [] && LeastLag(fields[..0], lag)
    ensures lag == 0 && DeclaredEnd(fields[..0]) == 0
  {
  }

  /** All digits of `value` stand in front of column `end`. */
  ghost predicate ShownAt(line: string, end: nat, value: nat) {
    Digits(value) <= end <= |line| && line[end - Digits(value)..end] == Decimal(value)
  }

  lemma StillShown(line: string, more: string, end: nat, value: nat)
    requires ShownAt(line, end, value)
    ensures ShownAt(line + more, end, value)
  {
    assert (line + more)[end - Digits(value)..end] == line[end - Digits(value)..end];
  }

  lemma ShownLast(line: string, more: string, end: nat, value: nat)
    requires |line| <= end <= |line| + |more|
    requires var text := more[..end - |line|];
             Digits(value) <= |text| && text[|text| - Digits(value)..] == Decimal(value)
    ensures ShownAt(line + more, end, value)
  {
    hide Digits;
    var from, n := end - Digits(value), |line|;
    assert more[..end - n][from - n..] == more[from - n..end - n];
    assert (line + more)[from..end] == more[from - n..end - n];
  }

  lemma DeclaredEndNext(fields: seq<Field>, k: nat)
    requires k < |fields|
    ensures fields[..k + 1] == fields[..k] + [fields[k]]
    ensures DeclaredEnd(fields[..k + 1]) == DeclaredEnd(fields[..k]) + fields[k].width + if k > 0 then 1 else 0
  {
    assert fields[..k + 1][..k] == fields[..k];
  }

  /** The field ends where the declared widths and the lag say. */
  ghost predicate FieldSize(field: Field, skew0: nat, size: nat, skew: nat) {
    && size + skew0 == field.width + skew
    && skew == if skew0 + Digits(field.value) > field.width then skew0 + Digits(field.value) - field.width else 0
  }

  /** Its digits are at its end, behind nothing but blanks. */
  ghost predicate FieldPrinted(field: Field, skew0: nat, text: string, skew: nat) {
    var d := Digits(field.value);
    && FieldSize(field, skew0, |text|, skew)
    && |text| >= d && text[|text| - d..] == Decimal(field.value)
    && forall c :: 0 <= c < |text| - d ==> text[c] == ' '
  }

  /** One field: give up blanks to win back columns, print, and remember an overflow. */
  method PrintField(field: Field, skew0: nat) returns (text: string, skew: nat)
    ensures FieldPrinted(field, skew0, text, skew)
  {
    var digits := CountDigits(field.value);
    var width := field.width;
    skew := skew0;
    while skew > 0 && digits < width
      invariant width - skew == field.width - skew0 && skew >= 0
      invariant width <= field.width && (width < field.width ==> digits <= width)
    {
      width := width - 1;
      skew := skew - 1;
    }
    text := Printed(width, field.value);
    if digits > width {
      skew := skew + (digits - width);
    }
  }
}
