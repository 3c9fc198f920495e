/**
 * src/watch.c: laying out a command's output on the screen, noticing whether the screen
 * changed, and deciding from that when to exit.
 *
 * This is the build without WATCH8BIT and the mode without WATCH_FOLLOW. The output is
 * already tokenised: a colour sequence is one token. The curses window is a grid of cells.
 */
module Watch {

  const TAB_WIDTH: nat := 8

  datatype Token = Newline | Ansi | Bell | Tab | Unprintable | Glyph(c: char)

  datatype Cell = Cell(ch: char, standout: bool)

  datatype Flags = Flags(diff: bool, cumul: bool, chgexit: bool, equexit: bool, nowrap: bool) {
    predicate AllDiff() {
      diff || chgexit || equexit
    }
  }

  // ----- Reference layout, line by line ----------------------------------------------

  function Blanks(n: nat): (r: seq<char>)
    ensures |r| == n && forall i :: 0 <= i < n ==> r[i] == ' '
  {
    seq(n, _ => ' ')
  }

  function Pad(p: seq<char>, w: nat): (r: seq<char>)
    requires |p| <= w
    ensures |r| == w
  {
    p + Blanks(w - |p|)
  }

  predicate IsStop(x: int) {
    x % 8 == 0
  }

  /** Columns a token takes at column `x`: a tab reaches the next stop or the edge. */
  function Columns(t: Token, x: nat, w: nat): (r: seq<char>)
    requires x < w
    ensures x + |r| <= w && (t.Tab? || t.Glyph? ==> |r| > 0)
    ensures t.Glyph? ==> r == [t.c]
    ensures t.Tab? ==> forall i :: 0 <= i < |r| ==> r[i] == ' '
    ensures t.Tab? ==> ((x + |r|) % 8 == 0 || x + |r| == w) && forall i :: x < i < x + |r| ==> !IsStop(i)
  {
    match t
    case Glyph(c) => [c]
    case Tab =>
      var stop := TAB_WIDTH - x % TAB_WIDTH;
      Blanks(if stop <= w - x then stop else w - x)
    case _ => []
  }

  /** A column past the start of a tab is inside it when it is neither a stop nor the edge. */
  lemma TabReaches(x0: nat, x: nat, w: nat)
    requires x0 < w && x0 < x <= x0 + |Columns(Tab, x0, w)|
    ensures x < x0 + |Columns(Tab, x0, w)| <==> x % TAB_WIDTH != 0 && x < w
  {
  }

  /** What shows on screen: neither colours, bells nor unprintable characters do. */
  function Visible(ts: seq<Token>): (r: seq<Token>)
    ensures forall i :: 0 <= i < |r| ==> r[i].Newline? || r[i].Tab? || r[i].Glyph?
  {
    if ts == [] then []
    else if ts[0].Newline? || ts[0].Tab? || ts[0].Glyph? then [ts[0]] + Visible(ts[1..])
    else Visible(ts[1..])
  }

  /** The lines of visible output; the last one is what follows the last newline. */
  function Lines(ts: seq<Token>): (r: seq<seq<Token>>)
    ensures |r| > 0
  {
    if ts == [] then [[]]
    else
      var rest := Lines(ts[1..]);
      if ts[0].Newline? then [[]] + rest else [[ts[0]] + rest[0]] + rest[1..]
  }

  /** Fill a row that already holds `p` from `line`; what does not fit is left over. */
  function Fill(p: seq<char>, line: seq<Token>, w: nat): (r: (seq<char>, seq<Token>))
    requires |p| <= w
    ensures |p| <= |r.0| <= w && |r.1| <= |line|
    ensures r.1 != [] ==> |r.0| == w
    ensures |p| < w && line != [] ==> |r.1| < |line|
    decreases line
  {
    if line == [] || |p| == w then (p, line)
    else Fill(p + Columns(line[0], |p|, w), line[1..], w)
  }

  /** The rows a line takes up when its first row already holds `p`. */
  function LineRows(p: seq<char>, line: seq<Token>, w: nat, nowrap: bool): (r: seq<seq<char>>)
    requires |p| <= w && w > 0
    ensures |r| > 0 && forall i :: 0 <= i < |r| ==> |r[i]| == w
    decreases |line| + if |p| == w then 1 else 0
  {
    var (row, rest) := Fill(p, line, w);
    if rest == [] || nowrap then [Pad(row, w)]
    else if |p| < w then [row] + LineRows([], rest, w, nowrap)
    else [p] + LineRows([], line, w, nowrap)
  }

  function AllRows(lines: seq<seq<Token>>, w: nat, nowrap: bool): (r: seq<seq<char>>)
    requires w > 0
    ensures forall i :: 0 <= i < |r| ==> |r[i]| == w
  {
    if lines == [] then [] else LineRows([], lines[0], w, nowrap) + AllRows(lines[1..], w, nowrap)
  }

  /** Exactly `n` rows: the first ones, then blank ones. */
  function Fit(rows: seq<seq<char>>, n: nat, w: nat): (r: seq<seq<char>>)
    requires forall i :: 0 <= i < |rows| ==> |rows[i]| == w
    ensures |r| == n && forall i :: 0 <= i < n ==> |r[i]| == w
  {
    if n == 0 then []
    else if rows == [] then [Blanks(w)] + Fit([], n - 1, w)
    else [rows[0]] + Fit(rows[1..], n - 1, w)
  }

  /** The screen for some output. */
  function Layout(ts: seq<Token>, h: nat, w: nat, nowrap: bool): (r: seq<seq<char>>)
    requires w > 0
    ensures |r| == h && forall i :: 0 <= i < h ==> |r[i]| == w
  {
    Fit(AllRows(Lines(Visible(ts)), w, nowrap), h, w)
  }

  // ----- The same layout, token by token ----------------------------------------------

  /** skiptoeol */
  function AfterLine(ts: seq<Token>): (r: seq<Token>)
    ensures |r| <= |ts|
  {
    if ts == [] then [] else if ts[0].Newline? then ts[1..] else AfterLine(ts[1..])
  }

  /** The next `n` rows when the first of them already holds `p` and `ts` is still to come. */
  function Rows(ts: seq<Token>, p: seq<char>, n: nat, w: nat, nowrap: bool): (r: seq<seq<char>>)
    requires |p| <= w && w > 0
    ensures |r| == n && (forall i :: 0 <= i < n ==> |r[i]| == w)
    ensures n > 0 ==> p <= r[0]
    decreases n, |ts|
  {
    if n == 0 then []
    else if ts == [] then [Pad(p, w)] + Rows([], [], n - 1, w, nowrap)
    else
      match ts[0]
      case Newline => [Pad(p, w)] + Rows(ts[1..], [], n - 1, w, nowrap)
      case Ansi => Rows(ts[1..], p, n, w, nowrap)
      case Bell => Rows(ts[1..], p, n, w, nowrap)
      case Unprintable => Rows(ts[1..], p, n, w, nowrap)
      case _ =>
        if |p| < w then Rows(ts[1..], p + Columns(ts[0], |p|, w), n, w, nowrap)
        else if nowrap then [p] + Rows(AfterLine(ts), [], n - 1, w, nowrap)
        else [p] + Rows(ts, [], n - 1, w, nowrap)
  }

  lemma {:induction false} FitBlank(n: nat, w: nat, nowrap: bool)
    requires w > 0
    ensures Rows([], [], n, w, nowrap) == Fit([], n, w) == Fit([Blanks(w)], n, w)
  {
    if n > 0 {
      FitBlank(n - 1, w, nowrap);
      assert Pad([], w) == Blanks(w);
    }
  }

  /** Visible output after a skipped line is the same lines without the first. */
  lemma {:induction false} LinesAfterLine(ts: seq<Token>)
    ensures var v := Lines(Visible(ts));
            if |v| == 1 then AfterLine(ts) == [] else Lines(Visible(AfterLine(ts))) == v[1..]
  {
    if ts != [] {
      LinesAfterLine(ts[1..]);
      var v := Visible(ts);
      if ts[0].Newline? {
        assert v[1..] == Visible(ts[1..]);
      } else if ts[0].Tab? || ts[0].Glyph? {
        assert v[1..] == Visible(ts[1..]);
      }
    }
  }

  /** The rows of the pending lines, the first of which has `p` on screen already. */
  function Pending(ts: seq<Token>, p: seq<char>, w: nat, nowrap: bool): (r: seq<seq<char>>)
    requires |p| <= w && w > 0
    ensures |r| > 0 && forall i :: 0 <= i < |r| ==> |r[i]| == w
  {
    var lines := Lines(Visible(ts));
    LineRows(p, lines[0], w, nowrap) + AllRows(lines[1..], w, nowrap)
  }

  lemma PendingAll(ts: seq<Token>, w: nat, nowrap: bool)
    requires w > 0
    ensures Pending(ts, [], w, nowrap) == AllRows(Lines(Visible(ts)), w, nowrap)
  {
  }

  lemma FitCons(row: seq<char>, rest: seq<seq<char>>, n: nat, w: nat)
    requires |row| == w && n > 0 && forall i :: 0 <= i < |rest| ==> |rest[i]| == w
    ensures Fit([row] + rest, n, w) == [row] + Fit(rest, n - 1, w)
  {
    assert ([row] + rest)[1..] == rest;
  }

  /** The token-by-token layout is the line-by-line one. */
  lemma {:induction false} RowsArePending(ts: seq<Token>, p: seq<char>, n: nat, w: nat, nowrap: bool)
    requires |p| <= w && w > 0
    ensures Rows(ts, p, n, w, nowrap) == Fit(Pending(ts, p, w, nowrap), n, w)
    decreases n, |ts|
  {
    hide Pending, Lines, Visible, LineRows, AllRows, Columns, AfterLine, Pad;
    if n == 0 {
    } else if ts == [] {
      PendingNone(p, n, w, nowrap);
    } else if ts[0].Newline? {
      RowsArePending(ts[1..], [], n - 1, w, nowrap);
      PendingNewline(ts, p, w, nowrap);
      FitCons(Pad(p, w), Pending(ts[1..], [], w, nowrap), n, w);
    } else if ts[0].Ansi? || ts[0].Bell? || ts[0].Unprintable? {
      RowsArePending(ts[1..], p, n, w, nowrap);
      PendingSkip(ts, p, w, nowrap);
    } else if |p| < w {
      RowsArePending(ts[1..], p + Columns(ts[0], |p|, w), n, w, nowrap);
      PendingColumns(ts, p, w, nowrap);
    } else if nowrap {
      RowsArePending(AfterLine(ts), [], n - 1, w, nowrap);
      PendingCut(ts, p, n, w);
    } else {
      RowsArePending(ts, [], n - 1, w, nowrap);
      PendingWrapped(ts, p, w);
      FitCons(p, Pending(ts, [], w, nowrap), n, w);
    }
  }

  lemma PendingNone(p: seq<char>, n: nat, w: nat, nowrap: bool)
    requires |p| <= w && w > 0 && n > 0
    ensures Fit(Pending([], p, w, nowrap), n, w) == [Pad(p, w)] + Rows([], [], n - 1, w, nowrap)
  {
    FitBlank(n - 1, w, nowrap);
    assert Pending([], p, w, nowrap) == [Pad(p, w)];
  }

  lemma PendingSkip(ts: seq<Token>, p: seq<char>, w: nat, nowrap: bool)
    requires |p| <= w && w > 0 && ts != [] && (ts[0].Ansi? || ts[0].Bell? || ts[0].Unprintable?)
    ensures Pending(ts, p, w, nowrap) == Pending(ts[1..], p, w, nowrap)
  {
    assert Visible(ts) == Visible(ts[1..]);
  }

  lemma PendingNewline(ts: seq<Token>, p: seq<char>, w: nat, nowrap: bool)
    requires |p| <= w && w > 0 && ts != [] && ts[0].Newline?
    ensures Pending(ts, p, w, nowrap) == [Pad(p, w)] + Pending(ts[1..], [], w, nowrap)
  {
    PendingAll(ts[1..], w, nowrap);
    var v := Visible(ts);
    assert v[1..] == Visible(ts[1..]);
    assert Lines(v) == [[]] + Lines(v[1..]);
    assert LineRows(p, [], w, nowrap) == [Pad(p, w)];
  }

  lemma PendingColumns(ts: seq<Token>, p: seq<char>, w: nat, nowrap: bool)
    requires |p| < w && ts != [] && (ts[0].Tab? || ts[0].Glyph?)
    ensures Pending(ts, p, w, nowrap) == Pending(ts[1..], p + Columns(ts[0], |p|, w), w, nowrap)
  {
    var v := Visible(ts);
    assert v[1..] == Visible(ts[1..]);
    var rest := Lines(v[1..]);
    var line := [ts[0]] + rest[0];
    assert Lines(v) == [line] + rest[1..];
    assert line[1..] == rest[0];
    LineRowsColumns(p, line, w, nowrap);
  }

  lemma LineRowsColumns(p: seq<char>, line: seq<Token>, w: nat, nowrap: bool)
    requires |p| < w && line != []
    ensures LineRows(p, line, w, nowrap) == LineRows(p + Columns(line[0], |p|, w), line[1..], w, nowrap)
  {
    var q := p + Columns(line[0], |p|, w);
    assert Fill(p, line, w) == Fill(q, line[1..], w);
    if |q| == w {
      assert Fill(q, line[1..], w) == (q, line[1..]);
    }
  }

  /** Without wrapping, a full row drops the rest of its line. */
  lemma PendingCut(ts: seq<Token>, p: seq<char>, n: nat, w: nat)
    requires |p| == w && w > 0 && n > 0 && ts != [] && (ts[0].Tab? || ts[0].Glyph?)
    ensures Fit(Pending(ts, p, w, true), n, w)
         == [p] + Fit(Pending(AfterLine(ts), [], w, true), n - 1, w)
  {
    LinesAfterLine(ts);
    var lines := Lines(Visible(ts));
    assert Pad(p, w) == p;
    assert LineRows(p, lines[0], w, true) == [p];
    assert Pending(ts, p, w, true) == [p] + AllRows(lines[1..], w, true);
    PendingAll(AfterLine(ts), w, true);
    if |lines| == 1 {
      FitBlank(n - 1, w, true);
      assert Pending([], [], w, true) == [Pad([], w)];
      assert Pad([], w) == Blanks(w);
    }
  }

  /** With wrapping, a full row continues its line on the next one. */
  lemma PendingWrapped(ts: seq<Token>, p: seq<char>, w: nat)
    requires |p| == w && w > 0 && ts != [] && (ts[0].Tab? || ts[0].Glyph?)
    ensures Pending(ts, p, w, false) == [p] + Pending(ts, [], w, false)
  {
    var lines := Lines(Visible(ts));
    assert lines[0] != [];
    assert LineRows(p, lines[0], w, false) == [p] + LineRows([], lines[0], w, false);
  }

  // ----- What the reference means for a line --------------------------------------------

  /** Characters and tabs, which take up at least a column each. */
  ghost predicate VisibleLine(line: seq<Token>) {
    forall i :: 0 <= i < |line| ==> line[i].Glyph? || line[i].Tab?
  }

  /** The lines of a layout are of that kind. */
  lemma {:induction false} LayoutLines(ts: seq<Token>)
    ensures forall k :: 0 <= k < |Lines(Visible(ts))| ==> VisibleLine(Lines(Visible(ts))[k])
  {
    if ts != [] {
      LayoutLines(ts[1..]);
      if ts[0].Newline? || ts[0].Tab? || ts[0].Glyph? {
        assert Visible(ts)[1..] == Visible(ts[1..]);
      }
    }
  }

  /** What a line shows when it starts at column `x`: its characters, tabs as blanks up to a stop or the edge. */
  function Shown(line: seq<Token>, x: nat, w: nat): seq<char>
    requires x < w
  {
    if line == [] then []
    else
      var cols := Columns(line[0], x, w);
      cols + Shown(line[1..], if x + |cols| == w then 0 else x + |cols|, w)
  }

  function Joined(rows: seq<seq<char>>): seq<char> {
    if rows == [] then [] else rows[0] + Joined(rows[1..])
  }

  /** Filling a row shows the front of the line and leaves the rest for the next row. */
  lemma {:induction false} FillShown(p: seq<char>, line: seq<Token>, w: nat)
    requires |p| < w && VisibleLine(line)
    ensures var (row, rest) := Fill(p, line, w);
            && VisibleLine(rest) && (line != [] ==> |row| > |p|) && (rest != [] ==> |row| == w)
            && row + (if rest == [] then [] else Shown(rest, 0, w)) == p + Shown(line, |p|, w)
    decreases line
  {
    if line == [] {
      assert p + [] == p;
    } else {
      var cols := Columns(line[0], |p|, w);
      var q, tail := p + cols, line[1..];
      hide Columns;
      assert VisibleLine(tail);
      if |q| < w {
        FillShown(q, tail, w);
        Assoc(p, cols, Shown(tail, |q|, w));
      } else {
        assert Fill(q, tail, w) == (q, tail);
        Assoc(p, cols, Shown(tail, 0, w));
        assert tail == [] ==> Shown(tail, 0, w) == [];
      }
    }
  }

  lemma Assoc(a: seq<char>, b: seq<char>, c: seq<char>)
    ensures (a + b) + c == a + (b + c)
  {
  }

  lemma JoinedCons(row: seq<char>, rows: seq<seq<char>>)
    ensures Joined([row] + rows) == row + Joined(rows)
  {
    assert ([row] + rows)[1..] == rows;
  }

  /** The rows of a line: one if it fits, else a full one and those of the rest. */
  lemma ShownRows(line: seq<Token>, w: nat)
    requires VisibleLine(line) && w > 0
    ensures var (row, rest) := Fill([], line, w);
            && VisibleLine(rest) && (line != [] ==> |row| > 0 && |rest| < |line|)
            && (rest == [] ==> row == Shown(line, 0, w) && LineRows([], line, w, false) == [Pad(row, w)])
            && (rest != [] ==> |row| == w && row + Shown(rest, 0, w) == Shown(line, 0, w)
                               && LineRows([], line, w, false) == [row] + LineRows([], rest, w, false))
  {
    FillShown([], line, w);
    hide Fill, Shown, Pad;
    assert [] + Shown(line, 0, w) == Shown(line, 0, w);
    var (row, rest) := Fill([], line, w);
    assert row + [] == row;
  }

  /**
   * With wrapping, a line's rows read one after another give what the line shows and then
   * fewer blanks than a row holds: nothing is lost, repeated or moved.
   */
  lemma {:induction false} WrappedLine(line: seq<Token>, w: nat)
    requires VisibleLine(line) && w > 0
    ensures var joined, shown := Joined(LineRows([], line, w, false)), Shown(line, 0, w);
            && |joined| >= |shown| && (line != [] ==> |joined| < |shown| + w)
            && joined == shown + Blanks(|joined| - |shown|)
    decreases |line|
  {
    ShownRows(line, w);
    var (row, rest) := Fill([], line, w);
    hide LineRows, Fill, Shown;
    if rest == [] {
      JoinedCons(Pad(row, w), []);
      assert [Pad(row, w)] + [] == [Pad(row, w)];
      assert Joined([]) == [];
    } else {
      WrappedLine(rest, w);
      var rows, shown := LineRows([], rest, w, false), Shown(rest, 0, w);
      JoinedCons(row, rows);
      Assoc(row, shown, Blanks(|Joined(rows)| - |shown|));
    }
  }

  /** Without wrapping, a line is one row: as much of what it shows as fits. */
  lemma CutLine(line: seq<Token>, w: nat)
    requires VisibleLine(line) && w > 0
    ensures var shown := Shown(line, 0, w);
            LineRows([], line, w, true) == [Pad(shown[..if |shown| <= w then |shown| else w], w)]
  {
    ShownRows(line, w);
    var (row, rest) := Fill([], line, w);
    var shown := Shown(line, 0, w);
    hide Fill, Shown;
    if rest == [] {
      assert shown[..|shown|] == shown;
    } else {
      assert shown[..w] == row;
    }
  }

  ghost predicate PlainText(line: seq<Token>) {
    forall i :: 0 <= i < |line| ==> line[i].Glyph?
  }

  function Text(line: seq<Token>): (r: seq<char>)
    requires PlainText(line)
    ensures |r| == |line| && forall i :: 0 <= i < |line| ==> r[i] == line[i].c
  {
    seq(|line|, i requires 0 <= i < |line| => line[i].c)
  }

  /** A line without tabs shows its characters, wherever it starts. */
  lemma {:induction false} PlainShown(line: seq<Token>, x: nat, w: nat)
    requires x < w && PlainText(line)
    ensures Shown(line, x, w) == Text(line)
    decreases line
  {
    if line != [] {
      PlainShown(line[1..], if x + 1 == w then 0 else x + 1, w);
      assert Text(line) == [line[0].c] + Text(line[1..]);
    }
  }

  // ----- The screen ------------------------------------------------------------------------

  /** The cells in front of (y, x), row by row. */
  function CellsBefore(y: nat, x: nat, w: nat): seq<(nat, nat)>
    requires x <= w
  {
    if x > 0 then CellsBefore(y, x - 1, w) + [(y, x - 1)]
    else if y > 0 then CellsBefore(y - 1, w, w)
    else []
  }

  predicate IsBefore(r: nat, c: nat, y: nat, x: nat) {
    r < y || (r == y && c < x)
  }

  lemma CountSnoc<T>(s: seq<T>, e: T, k: T)
    ensures multiset(s + [e])[k] == multiset(s)[k] + if k == e then 1 else 0
  {
  }

  /** Written row by row, every cell of the screen is written exactly once. */
  lemma {:induction false} EachCellOnce(y: nat, x: nat, w: nat, r: nat, c: nat)
    requires x <= w && c < w
    ensures multiset(CellsBefore(y, x, w))[(r, c)] == if IsBefore(r, c, y, x) then 1 else 0
    decreases y, x
  {
    hide *;
    if x > 0 {
      EachCellOnce(y, x - 1, w, r, c);
      CellsNext(y, x, w);
      CountSnoc(CellsBefore(y, x - 1, w), (y, x - 1), (r, c));
      BeforeNext(r, c, y, x);
    } else if y > 0 {
      EachCellOnce(y - 1, w, w, r, c);
      CellsRow(y, w, r, c);
    } else {
      NoCells(w, r, c);
    }
  }

  lemma CellsNext(y: nat, x: nat, w: nat)
    requires 0 < x <= w
    ensures CellsBefore(y, x, w) == CellsBefore(y, x - 1, w) + [(y, x - 1)]
  {
  }

  lemma BeforeNext(r: nat, c: nat, y: nat, x: nat)
    requires x > 0
    ensures IsBefore(r, c, y, x) <==> IsBefore(r, c, y, x - 1) || (r, c) == (y, x - 1)
    ensures !(IsBefore(r, c, y, x - 1) && (r, c) == (y, x - 1))
  {
  }

  lemma CellsRow(y: nat, w: nat, r: nat, c: nat)
    requires y > 0 && c < w
    ensures CellsBefore(y, 0, w) == CellsBefore(y - 1, w, w)
    ensures IsBefore(r, c, y, 0) <==> IsBefore(r, c, y - 1, w)
  {
  }

  lemma NoCells(w: nat, r: nat, c: nat)
    ensures CellsBefore(0, 0, w) == [] && !IsBefore(r, c, 0, 0)
  {
  }

  type Grid = seq<seq<Cell>>

  ghost predicate Sized(g: Grid, h: nat, w: nat) {
    |g| == h && forall r :: 0 <= r < h ==> |g[r]| == w
  }

  function Put(g: Grid, y: nat, x: nat, cell: Cell): Grid
    requires y < |g| && x < |g[y]|
  {
    g[y := g[y][x := cell]]
  }

  /** Some cell in front of (y, x) has a character other than the target's. */
  ghost predicate Differs(g: Grid, t: seq<seq<char>>, y: nat, x: nat) {
    exists r, c :: 0 <= r < |g| && 0 <= c < |g[r]| && r < |t| && c < |t[r]|
                && IsBefore(r, c, y, x) && t[r][c] != g[r][c].ch
  }

  lemma DiffersNext(g: Grid, t: seq<seq<char>>, y: nat, x: nat)
    requires y < |g| && y < |t| && x < |g[y]| && x < |t[y]|
    ensures Differs(g, t, y, x + 1) <==> Differs(g, t, y, x) || t[y][x] != g[y][x].ch
  {
    if Differs(g, t, y, x) {
      var r, c :| 0 <= r < |g| && 0 <= c < |g[r]| && r < |t| && c < |t[r]|
                && IsBefore(r, c, y, x) && t[r][c] != g[r][c].ch;
      assert IsBefore(r, c, y, x + 1);
    }
    if t[y][x] != g[y][x].ch {
      assert IsBefore(y, x, y, x + 1);
    }
  }

  /** From row `y` on, the target is what `ts` gives when row `y` starts with what `x` columns show. */
  ghost predicate Expects(t: seq<seq<char>>, y: nat, x: nat, ts: seq<Token>, w: nat, nowrap: bool) {
    && y < |t| && x <= w && w > 0 && |t[y]| == w
    && t[y..] == Rows(ts, t[y][..x], |t| - y, w, nowrap)
  }

  /** The same at the start of row `y`, when there may be no such row. */
  ghost predicate ExpectsRow(t: seq<seq<char>>, y: nat, ts: seq<Token>, w: nat, nowrap: bool) {
    && y <= |t| && w > 0 && t[y..] == Rows(ts, [], |t| - y, w, nowrap)
  }

  lemma ExpectsStart(t: seq<seq<char>>, y: nat, ts: seq<Token>, w: nat, nowrap: bool)
    requires ExpectsRow(t, y, ts, w, nowrap) && y < |t|
    ensures Expects(t, y, 0, ts, w, nowrap)
  {
    assert t[y..][0] == t[y];
    assert t[y][..0] == [];
  }

  /** What the target holds at the end of the output: blanks to the end of the screen. */
  lemma {:induction false} ExpectsEof(t: seq<seq<char>>, y: nat, x: nat, w: nat, nowrap: bool)
    requires Expects(t, y, x, [], w, nowrap)
    ensures forall c :: x <= c < w ==> t[y][c] == ' '
    ensures forall r :: y < r < |t| ==> t[r] == Blanks(w)
    decreases |t| - y
  {
    assert t[y..][0] == t[y] && t[y..][1..] == t[y + 1..];
    if y + 1 < |t| {
      ExpectsStart(t, y + 1, [], w, nowrap);
      ExpectsEof(t, y + 1, 0, w, nowrap);
      assert t[y + 1] == Blanks(w);
    }
  }

  lemma ExpectsNewline(t: seq<seq<char>>, y: nat, x: nat, ts: seq<Token>, w: nat, nowrap: bool)
    requires Expects(t, y, x, ts, w, nowrap) && ts != [] && ts[0].Newline?
    ensures forall c :: x <= c < w ==> t[y][c] == ' '
    ensures ExpectsRow(t, y + 1, ts[1..], w, nowrap)
  {
    assert t[y..][0] == t[y] && t[y..][1..] == t[y + 1..];
  }

  lemma ExpectsSkip(t: seq<seq<char>>, y: nat, x: nat, ts: seq<Token>, w: nat, nowrap: bool)
    requires Expects(t, y, x, ts, w, nowrap) && ts != [] && (ts[0].Ansi? || ts[0].Bell? || ts[0].Unprintable?)
    ensures Expects(t, y, x, ts[1..], w, nowrap)
  {
  }

  /** A character or a tab that fits takes its columns. */
  lemma ExpectsColumns(t: seq<seq<char>>, y: nat, x: nat, ts: seq<Token>, w: nat, nowrap: bool)
    requires Expects(t, y, x, ts, w, nowrap) && x < w && ts != [] && (ts[0].Tab? || ts[0].Glyph?)
    ensures var cols := Columns(ts[0], x, w);
            && t[y][x..x + |cols|] == cols
            && Expects(t, y, x + |cols|, ts[1..], w, nowrap)
  {
    var p := t[y][..x] + Columns(ts[0], x, w);
    assert t[y..][0] == t[y];
    assert p <= t[y];
    assert p == t[y][..|p|];
  }

  /** One that does not fit ends the row: the rest of the line is dropped, or carried over. */
  lemma ExpectsFull(t: seq<seq<char>>, y: nat, ts: seq<Token>, w: nat, nowrap: bool)
    requires Expects(t, y, w, ts, w, nowrap) && ts != [] && (ts[0].Tab? || ts[0].Glyph?)
    ensures ExpectsRow(t, y + 1, if nowrap then AfterLine(ts) else ts, w, nowrap)
  {
    assert t[y..][1..] == t[y + 1..];
  }

  class Screen {
    const height: nat
    const width: nat
    const flags: Flags
    var grid: Grid
    var firstScreen: bool
    var screenChanged: bool
    /** The cells display_char wrote since the pass began. */
    ghost var log: seq<(nat, nat)>

    constructor (height: nat, width: nat, flags: Flags, grid: Grid)
      requires height > 0 && width > 0 && Sized(grid, height, width)
      ensures this.height == height && this.width == width && this.flags == flags && this.grid == grid
      ensures Valid() && firstScreen
    {
      this.height, this.width, this.flags, this.grid := height, width, flags, grid;
      firstScreen, screenChanged, log := true, false, [];
    }

    ghost predicate Valid()
      reads this
    {
      width > 0 && height > 0 && Sized(grid, height, width)
    }

    /** The cell that showing `c` over `old` leaves: highlighted when it is a difference. */
    function Painted(was: Cell, c: char): Cell
      reads this
    {
      Cell(c, flags.diff && !firstScreen && (c != was.ch || (flags.cumul && was.standout)))
    }

    /** display_char with a column width of 1. */
    method DisplayChar(y: nat, x: nat, c: char) returns (changed: bool)
      requires Valid() && y < height && x < width
      modifies this`grid, this`log
      ensures Valid()
      ensures grid == Put(old(grid), y, x, Painted(old(grid[y][x]), c))
      ensures log == old(log) + [(y, x)]
      ensures changed == (!firstScreen && flags.AllDiff() && c != old(grid[y][x]).ch)
    {
      changed := false;
      var oldStandout := false;
      if !firstScreen && flags.AllDiff() {
        var oldc := grid[y][x];
        changed := c != oldc.ch;
        oldStandout := oldc.standout;
      }
      ghost var row := grid[y];
      grid := Put(grid, y, x, Cell(c, false));
      assert row[x := Cell(c, false)][x := Cell(c, true)] == row[x := Cell(c, true)];
      assert row[x := Cell(c, false)][x := Cell(c, false)] == row[x := Cell(c, false)];
      if flags.diff {
        if changed || (flags.cumul && oldStandout) {
          grid := Put(grid, y, x, grid[y][x].(standout := true));
        } else {
          grid := Put(grid, y, x, grid[y][x].(standout := false));
        }
      }
      log := log + [(y, x)];
    }

    // --- one pass, against a target layout ------------------------------------------

    /** In front of (y, x) the screen shows `t`; from there on it is still `g0`. */
    ghost predicate At(g0: Grid, t: seq<seq<char>>, y: nat, x: nat)
      reads this
      requires Sized(g0, height, width)
    {
      && Valid() && |t| == height && (forall r :: 0 <= r < height ==> |t[r]| == width)
      && y <= height && x <= width
      && (forall r, c :: 0 <= r < height && 0 <= c < width ==>
            grid[r][c] == if IsBefore(r, c, y, x) then Painted(g0[r][c], t[r][c]) else g0[r][c])
      && (flags.AllDiff() ==> log == CellsBefore(y, x, width))
      && screenChanged == (!firstScreen && flags.AllDiff() && Differs(g0, t, y, x))
    }

    /** Showing the target's character at (y, x) moves the position one to the right. */
    method ShowNext(ghost g0: Grid, ghost t: seq<seq<char>>, y: nat, x: nat, c: char)
      requires Sized(g0, height, width) && At(g0, t, y, x)
      requires y < height && x < width && t[y][x] == c
      modifies this`grid, this`log, this`screenChanged
      ensures At(g0, t, y, x + 1)
    {
      var changed := DisplayChar(y, x, c);
      DiffersNext(g0, t, y, x);
      screenChanged := changed || screenChanged;
    }

    /** The end of a row is the start of the next one. */
    lemma RowEnd(g0: Grid, t: seq<seq<char>>, y: nat)
      requires Sized(g0, height, width) && At(g0, t, y, width) && y < height
      ensures At(g0, t, y + 1, 0)
    {
      if Differs(g0, t, y, width) {
        var r, c :| 0 <= r < |g0| && 0 <= c < |g0[r]| && r < |t| && c < |t[r]|
                  && IsBefore(r, c, y, width) && t[r][c] != g0[r][c].ch;
        assert IsBefore(r, c, y + 1, 0);
      }
      if Differs(g0, t, y + 1, 0) {
        var r, c :| 0 <= r < |g0| && 0 <= c < |g0[r]| && r < |t| && c < |t[r]|
                  && IsBefore(r, c, y + 1, 0) && t[r][c] != g0[r][c].ch;
        assert IsBefore(r, c, y, width);
      }
    }

    /** my_clrtoeol, with its result or-ed into screen_changed cell by cell. */
    method MyClrToEol(ghost g0: Grid, ghost t: seq<seq<char>>, y: nat, x: nat)
      requires Sized(g0, height, width) && At(g0, t, y, x) && y < height
      requires forall c :: x <= c < width ==> t[y][c] == ' '
      modifies this`grid, this`log, this`screenChanged
      ensures At(g0, t, y, width)
    {
      if flags.AllDiff() {
        var i := x;
        while i < width
          invariant x <= i <= width && At(g0, t, y, i)
        {
          ShowNext(g0, t, y, i, ' ');
          i := i + 1;
        }
      } else {
        // wclrtoeol
        grid := grid[y := grid[y][..x] + seq(width - x, _ => Cell(' ', false))];
      }
    }

    /** my_clrtobot, likewise. */
    method MyClrToBot(ghost g0: Grid, ghost t: seq<seq<char>>, y: nat, x: nat)
      requires Sized(g0, height, width) && At(g0, t, y, x) && y < height
      requires forall c :: x <= c < width ==> t[y][c] == ' '
      requires forall r, c :: y < r < height && 0 <= c < width ==> t[r][c] == ' '
      modifies this`grid, this`log, this`screenChanged
      ensures At(g0, t, height, 0)
    {
      if flags.AllDiff() {
        var i: nat, j: nat := y, x;
        while i < height
          invariant y <= i <= height && j <= width && (i > y ==> j == 0)
          invariant At(g0, t, i, j)
          invariant forall c :: i < height && j <= c < width ==> t[i][c] == ' '
        {
          while j < width
            invariant j <= width && At(g0, t, i, j)
            invariant forall c :: j <= c < width ==> t[i][c] == ' '
          {
            ShowNext(g0, t, i, j, ' ');
            j := j + 1;
          }
          RowEnd(g0, t, i);
          j := 0;
          i := i + 1;
        }
      } else {
        // wclrtobot
        var blank := seq(width, _ => Cell(' ', false));
        grid := grid[..y] + [grid[y][..x] + blank[x..]] + seq(height - y - 1, _ => blank);
      }
    }

    /** The do-while loop that prints a tab as blanks. */
    method ShowTab(ghost g0: Grid, ghost t: seq<seq<char>>, y: nat, x0: nat) returns (x: nat)
      requires Sized(g0, height, width) && At(g0, t, y, x0) && y < height && x0 < width
      requires var cols := Columns(Tab, x0, width); t[y][x0..x0 + |cols|] == cols
      modifies this`grid, this`log, this`screenChanged
      ensures x == x0 + |Columns(Tab, x0, width)| && At(g0, t, y, x)
    {
      ghost var cols := Columns(Tab, x0, width);
      forall i | x0 <= i < x0 + |cols|
        ensures t[y][i] == ' '
      {
        assert t[y][i] == t[y][x0..x0 + |cols|][i - x0];
      }
      hide *;
      ShowNext(g0, t, y, x0, ' ');
      x := x0 + 1;
      TabReaches(x0, x, width);
      while x % TAB_WIDTH != 0 && x < width
        invariant x0 < x <= x0 + |cols| && At(g0, t, y, x)
        invariant x < x0 + |cols| <==> x % TAB_WIDTH != 0 && x < width
        decreases width - x
      {
        ShowNext(g0, t, y, x, ' ');
        x := x + 1;
        TabReaches(x0, x, width);
      }
    }

    /** What is still to be laid out: the carried token, then the unread ones. */
    static function Unread(carry: seq<Token>, ts: seq<Token>, pos: nat): seq<Token>
      requires pos <= |ts|
    {
      carry + ts[pos..]
    }

    /** skiptoeol: read up to and including the next newline. */
    static method SkipToEol(ts: seq<Token>, pos0: nat) returns (pos: nat)
      requires pos0 <= |ts|
      ensures pos0 <= pos <= |ts| && ts[pos..] == AfterLine(ts[pos0..])
    {
      pos := pos0;
      while pos < |ts|
        invariant pos0 <= pos <= |ts| && AfterLine(ts[pos..]) == AfterLine(ts[pos0..])
      {
        pos := pos + 1;
        assert ts[pos - 1..][1..] == ts[pos..];
        if ts[pos - 1].Newline? {
          return;
        }
      }
    }

    /** The carried token, or the next one read. */
    static method NextToken(carry0: seq<Token>, ts: seq<Token>, pos0: nat)
      returns (c: Token, carry: seq<Token>, pos: nat)
      requires pos0 <= |ts| && |carry0| <= 1 && (carry0 == [] ==> pos0 < |ts|)
      ensures carry == [] && pos <= |ts|
      ensures Unread(carry0, ts, pos0) == [c] + Unread(carry, ts, pos)
      ensures |carry0| + |ts| - pos0 == 1 + |ts| - pos
    {
      carry, pos := [], pos0;
      if carry0 != [] {
        c := carry0[0];
      } else {
        c := ts[pos];
        pos := pos + 1;
      }
    }

    /** What happens at the end of a row: clear the rest of it. */
    method EndRow(ghost g0: Grid, ghost t: seq<seq<char>>, y: nat, x: nat)
      requires Sized(g0, height, width) && At(g0, t, y, x) && y < height
      requires forall c :: x <= c < width ==> t[y][c] == ' '
      modifies this`grid, this`log, this`screenChanged
      ensures At(g0, t, y + 1, 0)
    {
      MyClrToEol(g0, t, y, x);
      RowEnd(g0, t, y);
    }

    /** A token that does not fit: keep it for the next row, or drop the rest of its line. */
    method RowFull(ghost t: seq<seq<char>>, ghost y: nat, ts: seq<Token>, c: Token, pos0: nat)
      returns (carry: seq<Token>, pos: nat)
      requires (c.Tab? || c.Glyph?) && pos0 <= |ts|
      requires Expects(t, y, width, [c] + ts[pos0..], width, flags.nowrap)
      ensures |carry| <= 1 && (carry != [] ==> carry[0].Tab? || carry[0].Glyph?) && pos <= |ts|
      ensures ExpectsRow(t, y + 1, Unread(carry, ts, pos), width, flags.nowrap)
    {
      ghost var todo := [c] + ts[pos0..];
      ExpectsFull(t, y, todo, width, flags.nowrap);
      carry, pos := [], pos0;
      if !flags.nowrap {
        carry := [c];
      } else {
        pos := SkipToEol(ts, pos);
        assert todo[1..] == ts[pos0..];
        assert Unread([], ts, pos) == ts[pos..];
      }
    }

    /** A token that fits. */
    method ShowToken(ghost g0: Grid, ghost t: seq<seq<char>>, y: nat, x0: nat, c: Token, ghost rest: seq<Token>)
      returns (x: nat)
      requires Sized(g0, height, width) && At(g0, t, y, x0) && y < height && x0 < width
      requires (c.Tab? || c.Glyph?) && Expects(t, y, x0, [c] + rest, width, flags.nowrap)
      modifies this`grid, this`log, this`screenChanged
      ensures x <= width && At(g0, t, y, x) && Expects(t, y, x, rest, width, flags.nowrap)
    {
      hide Rows, Expects;
      ghost var todo := [c] + rest;
      assert todo[1..] == rest;
      ExpectsColumns(t, y, x0, todo, width, flags.nowrap);
      if c == Tab {
        x := ShowTab(g0, t, y, x0);
      } else {
        assert t[y][x0] == t[y][x0..x0 + 1][0] == c.c;
        ShowNext(g0, t, y, x0, c.c);
        x := x0 + 1;
      }
    }

    /** One row of run_command's loop; `eof` when the output ended, the whole screen then being done. */
    method LayRow(ghost g0: Grid, ghost t: seq<seq<char>>, ts: seq<Token>, y: nat, carry0: seq<Token>, pos0: nat)
      returns (carry: seq<Token>, pos: nat, eof: bool)
      requires Sized(g0, height, width) && At(g0, t, y, 0) && y < height && pos0 <= |ts|
      requires |carry0| <= 1 && (carry0 != [] ==> carry0[0].Tab? || carry0[0].Glyph?)
      requires ExpectsRow(t, y, Unread(carry0, ts, pos0), width, flags.nowrap)
      modifies this`grid, this`log, this`screenChanged
      ensures |carry| <= 1 && (carry != [] ==> carry[0].Tab? || carry[0].Glyph?) && pos <= |ts|
      ensures eof ==> At(g0, t, height, 0)
      ensures !eof ==> At(g0, t, y + 1, 0)
                       && ExpectsRow(t, y + 1, Unread(carry, ts, pos), width, flags.nowrap)
    {
      ExpectsStart(t, y, Unread(carry0, ts, pos0), width, flags.nowrap);
      carry, pos, eof := carry0, pos0, false;
      var x: nat := 0;
      while true
        invariant x <= width && pos <= |ts| && |carry| <= 1 && |t| == height && |t[y]| == width
        invariant x == 0 || carry == []
        invariant carry != [] ==> carry[0].Tab? || carry[0].Glyph?
        invariant At(g0, t, y, x)
        invariant Expects(t, y, x, Unread(carry, ts, pos), width, flags.nowrap)
        decreases |carry| + |ts| - pos
      {
        hide *;
        ghost var todo := Unread(carry, ts, pos);
        if carry == [] && pos == |ts| {
          UnreadNone(ts);
          ExpectsEof(t, y, x, width, flags.nowrap);
          BlankRows(t, y, width);
          MyClrToBot(g0, t, y, x);
          eof := true;
          return;
        }
        var c;
        c, carry, pos := NextToken(carry, ts, pos);
        ghost var rest := Unread(carry, ts, pos);
        assert todo[0] == c && todo[1..] == rest;
        if c == Newline {
          ExpectsNewline(t, y, x, todo, width, flags.nowrap);
          EndRow(g0, t, y, x);
          return;
        }
        if c == Ansi || c == Bell || c == Unprintable {
          ExpectsSkip(t, y, x, todo, width, flags.nowrap);
          continue;
        }
        if 1 > width - x {
          UnreadRest(ts, pos);
          carry, pos := RowFull(t, y, ts, c, pos);
          EndRow(g0, t, y, x);
          return;
        }
        x := ShowToken(g0, t, y, x, c, rest);
      }
    }

    static lemma UnreadNone(ts: seq<Token>)
      ensures Unread([], ts, |ts|) == []
    {
    }

    static lemma UnreadRest(ts: seq<Token>, pos: nat)
      requires pos <= |ts|
      ensures Unread([], ts, pos) == ts[pos..]
    {
    }

    static lemma BlankRows(t: seq<seq<char>>, y: nat, w: nat)
      requires forall r :: y < r < |t| ==> t[r] == Blanks(w)
      ensures forall r, c :: y < r < |t| && 0 <= c < w ==> |t[r]| == w && t[r][c] == ' '
    {
    }

    /**
     * run_command's layout pass over the tokens of a command's output.
     *
     * Every cell ends up as display_char leaves it for the laid-out character; the changed
     * flag is true exactly when some character differs from the screen before; and with a
     * difference mode on every cell is written once, row by row.
     */
    method RunCommand(ts: seq<Token>)
      requires Valid()
      modifies this`grid, this`log, this`screenChanged
      ensures Valid()
      ensures var t := Layout(ts, height, width, flags.nowrap);
              && (forall r, c :: 0 <= r < height && 0 <= c < width ==>
                    grid[r][c] == Painted(old(grid[r][c]), t[r][c]))
              && (flags.AllDiff() && !firstScreen ==>
                    (screenChanged <==> exists r, c :: 0 <= r < height && 0 <= c < width
                                                    && grid[r][c].ch != old(grid[r][c]).ch))
              && (firstScreen ==> !screenChanged)
      ensures flags.AllDiff() ==>
                forall r: nat, c: nat :: r < height && c < width ==> multiset(log)[(r, c)] == 1
    {
      ghost var g0 := grid;
      ghost var t := Rows(ts, [], height, width, flags.nowrap);
      log := [];
      screenChanged := false;
      var carry: seq<Token> := [];
      var pos: nat, y: nat, eof := 0, 0, false;
      assert t[0..] == t && Unread([], ts, 0) == ts;
      while y < height && !eof
        invariant 0 <= y <= height && pos <= |ts|
        invariant |carry| <= 1 && (carry != [] ==> carry[0].Tab? || carry[0].Glyph?)
        invariant if eof then At(g0, t, height, 0)
                  else At(g0, t, y, 0) && ExpectsRow(t, y, Unread(carry, ts, pos), width, flags.nowrap)
        decreases height - y, !eof
      {
        hide At, ExpectsRow, Rows;
        carry, pos, eof := LayRow(g0, t, ts, y, carry, pos);
        y := y + 1;
      }
      assert At(g0, t, height, 0);
      LaidOut(ts, g0, t);
    }

    /** What the finished pass means. */
    lemma LaidOut(ts: seq<Token>, g0: Grid, t: seq<seq<char>>)
      requires Valid() && Sized(g0, height, width) && t == Rows(ts, [], height, width, flags.nowrap)
      requires At(g0, t, height, 0)
      ensures t == Layout(ts, height, width, flags.nowrap)
      ensures forall r, c :: 0 <= r < height && 0 <= c < width ==> grid[r][c] == Painted(g0[r][c], t[r][c])
      ensures screenChanged == (!firstScreen && flags.AllDiff()
                && exists r, c :: 0 <= r < height && 0 <= c < width && grid[r][c].ch != g0[r][c].ch)
      ensures flags.AllDiff() ==>
                forall r: nat, c: nat :: r < height && c < width ==> multiset(log)[(r, c)] == 1
    {
      RowsArePending(ts, [], height, width, flags.nowrap);
      PendingAll(ts, width, flags.nowrap);
      if Differs(g0, t, height, 0) {
        var r, c :| 0 <= r < |g0| && 0 <= c < |g0[r]| && r < |t| && c < |t[r]|
                  && IsBefore(r, c, height, 0) && t[r][c] != g0[r][c].ch;
        assert grid[r][c].ch != g0[r][c].ch;
      }
      if r, c :| 0 <= r < height && 0 <= c < width && grid[r][c].ch != g0[r][c].ch {
        assert IsBefore(r, c, height, 0);
      }
      forall r: nat, c: nat | flags.AllDiff() && r < height && c < width
        ensures multiset(log)[(r, c)] == 1
      {
        EachCellOnce(height, 0, width, r, c);
      }
    }
  }

  // ----- When to exit -------------------------------------------------------------------------

  /** One pass: did the terminal change size just before it, and did run_command see a change. */
  datatype Pass = Pass(resized: bool, changed: bool)

  /** The passes that count: neither the first one nor one right after a change of size. */
  function Counted(passes: seq<Pass>): (r: seq<bool>)
    ensures |r| <= |passes|
  {
    if passes == [] then []
    else
      var n := |passes| - 1;
      if n == 0 || passes[n].resized then Counted(passes[..n])
      else Counted(passes[..n]) + [passes[n].changed]
  }

  /** How many of the latest counted passes in a row saw no change. */
  function Quiet(changes: seq<bool>): (n: nat)
    ensures n <= |changes| && forall i :: |changes| - n <= i < |changes| ==> !changes[i]
    ensures n < |changes| ==> changes[|changes| - n - 1]
  {
    if changes == [] || changes[|changes| - 1] then 0 else 1 + Quiet(changes[..|changes| - 1])
  }

  /** The documented exit conditions, looking back over the first `n` passes. */
  predicate ExitsAfter(flags: Flags, maxCycles: int, passes: seq<Pass>, n: nat)
    requires n <= |passes|
  {
    var changes := Counted(passes[..n]);
    && n > 0 && |changes| > |Counted(passes[..n - 1])|
    && ((flags.chgexit && changes[|changes| - 1]) || (flags.equexit && Quiet(changes) >= maxCycles))
  }

  /** The counting part of main's loop: the index of the pass after which watch exits. */
  method WatchLoop(flags: Flags, maxCycles0: int, passes: seq<Pass>) returns (last: nat)
    ensures last <= |passes|
    ensures var maxCycles := if maxCycles0 < 1 then 1 else maxCycles0;
            && (last < |passes| ==> ExitsAfter(flags, maxCycles, passes, last + 1))
            && (forall k :: 0 <= k <= last ==> !ExitsAfter(flags, maxCycles, passes, k))
  {
    var maxCycles := if maxCycles0 < 1 then 1 else maxCycles0;
    var cycleCount := 1;
    var firstScreen := true;
    last := 0;
    hide *;
    NoneCounted(flags, maxCycles, passes);
    while last < |passes|
      invariant last <= |passes| && firstScreen == (last == 0)
      invariant flags.equexit ==> cycleCount == 1 + QuietAt(passes, last) <= maxCycles
      invariant forall k :: 0 <= k <= last ==> !ExitsAfter(flags, maxCycles, passes, k)
    {
      var pass := passes[last];
      ExitStep(flags, maxCycles, passes, last);
      if pass.resized {
        firstScreen := true;
      }
      if !firstScreen {
        if flags.chgexit && pass.changed {
          return;
        }
        if flags.equexit {
          if pass.changed {
            cycleCount := 1;
          } else {
            if cycleCount == maxCycles {
              return;
            }
            cycleCount := cycleCount + 1;
          }
        }
      }
      firstScreen := false;
      last := last + 1;
    }
  }

  /** How many of the latest counted passes among the first `k` saw no change. */
  function QuietAt(passes: seq<Pass>, k: nat): nat
    requires k <= |passes|
  {
    Quiet(Counted(passes[..k]))
  }

  lemma NoneCounted(flags: Flags, maxCycles: int, passes: seq<Pass>)
    ensures QuietAt(passes, 0) == 0 && !ExitsAfter(flags, maxCycles, passes, 0)
  {
  }

  /** Whether pass `k` is the one to exit after, and the count of quiet passes behind it. */
  lemma ExitStep(flags: Flags, maxCycles: int, passes: seq<Pass>, k: nat)
    requires k < |passes| && maxCycles >= 1
    ensures var pass, counted := passes[k], k > 0 && !passes[k].resized;
            && QuietAt(passes, k + 1) ==
                 (if !counted then QuietAt(passes, k) else if pass.changed then 0 else 1 + QuietAt(passes, k))
            && (ExitsAfter(flags, maxCycles, passes, k + 1) <==>
                 counted && ((flags.chgexit && pass.changed) || (flags.equexit && QuietAt(passes, k + 1) >= maxCycles)))
  {
    PassCounted(passes, k);
    hide Counted, Quiet;
  }

  /** What one more pass adds. */
  lemma PassCounted(passes: seq<Pass>, k: nat)
    requires k < |passes|
    ensures var before, after := Counted(passes[..k]), Counted(passes[..k + 1]);
            if k == 0 || passes[k].resized then after == before
            else
              && |after| == |before| + 1 && after[|before|] == passes[k].changed
              && Quiet(after) == if passes[k].changed then 0 else 1 + Quiet(before)
  {
    var before, after := Counted(passes[..k]), Counted(passes[..k + 1]);
    assert passes[..k + 1][..k] == passes[..k];
    if k > 0 && !passes[k].resized {
      assert after[..|after| - 1] == before;
    }
  }

  // ----- What a viewer sees of it -------------------------------------------------------------

  /** Passes on a screen of fixed size that show these texts: the first one sees no change. */
  ghost predicate PassesOf(passes: seq<Pass>, shown: seq<seq<seq<char>>>) {
    && |passes| <= |shown|
    && forall k :: 0 <= k < |passes| ==>
         !passes[k].resized && (passes[k].changed <==> k > 0 && shown[k] != shown[k - 1])
  }

  function Layouts(outputs: seq<seq<Token>>, h: nat, w: nat, nowrap: bool): (r: seq<seq<seq<char>>>)
    requires w > 0
    ensures |r| == |outputs| && forall k :: 0 <= k < |r| ==> r[k] == Layout(outputs[k], h, w, nowrap)
  {
    seq(|outputs|, k requires 0 <= k < |outputs| => Layout(outputs[k], h, w, nowrap))
  }

  /** The screen shows this text. */
  ghost predicate ShowsText(g: Grid, t: seq<seq<char>>, h: nat, w: nat) {
    && Sized(g, h, w) && FitsScreen(t, h, w)
    && forall r, c :: 0 <= r < h && 0 <= c < w ==> g[r][c].ch == t[r][c]
  }

  ghost predicate FitsScreen(t: seq<seq<char>>, h: nat, w: nat) {
    |t| == h && forall r :: 0 <= r < h ==> |t[r]| == w
  }

  /** Two texts on one screen are the same exactly when no cell of it changed. */
  lemma SameText(g: Grid, t: seq<seq<char>>, g': Grid, t': seq<seq<char>>, h: nat, w: nat)
    requires ShowsText(g, t, h, w) && ShowsText(g', t', h, w)
    ensures t != t' <==> exists r, c :: 0 <= r < h && 0 <= c < w && g'[r][c].ch != g[r][c].ch
  {
    if forall r, c :: 0 <= r < h && 0 <= c < w ==> g'[r][c].ch == g[r][c].ch {
      forall r | 0 <= r < h
        ensures t[r] == t'[r]
      {
        assert forall c :: 0 <= c < w ==> t[r][c] == g[r][c].ch == g'[r][c].ch == t'[r][c];
      }
      assert t == t';
    }
  }

  /** What one pass leaves highlighted: where its text differs from the one before, and what was if that is kept. */
  ghost predicate HighlightsDiffer(g: Grid, flags: Flags, first: bool, marked: Grid, before: seq<seq<char>>,
                                   t: seq<seq<char>>, h: nat, w: nat) {
    && Sized(g, h, w) && Sized(marked, h, w) && FitsScreen(t, h, w) && (!first ==> FitsScreen(before, h, w))
    && forall r, c :: 0 <= r < h && 0 <= c < w ==>
         (g[r][c].standout <==>
            flags.diff && !first && (t[r][c] != before[r][c] || (flags.cumul && marked[r][c].standout)))
  }

  /** One pass over a screen that shows `before`, unless it is the first one. */
  method RunPass(screen: Screen, ts: seq<Token>, ghost before: seq<seq<char>>) returns (changed: bool)
    requires screen.Valid()
    requires !screen.firstScreen ==> ShowsText(screen.grid, before, screen.height, screen.width)
    modifies screen
    ensures screen.Valid() && !screen.firstScreen
    ensures var t := Layout(ts, screen.height, screen.width, screen.flags.nowrap);
            && ShowsText(screen.grid, t, screen.height, screen.width)
            && (screen.flags.AllDiff() ==> (changed <==> !old(screen.firstScreen) && t != before))
            && HighlightsDiffer(screen.grid, screen.flags, old(screen.firstScreen), old(screen.grid), before, t,
                                screen.height, screen.width)
  {
    ghost var g0 := screen.grid;
    screen.RunCommand(ts);
    changed := screen.screenChanged;
    ghost var t := Layout(ts, screen.height, screen.width, screen.flags.nowrap);
    assert ShowsText(screen.grid, t, screen.height, screen.width);
    if !screen.firstScreen {
      SameText(g0, before, screen.grid, t, screen.height, screen.width);
    }
    screen.firstScreen := false;
  }

  /** Some pass after the first, among the first `n`, showed another character there than the one before. */
  ghost predicate EverDiffered(shown: seq<seq<seq<char>>>, n: nat, r: nat, c: nat)
    requires n <= |shown| && forall k :: 0 <= k < n ==> r < |shown[k]| && c < |shown[k][r]|
  {
    exists k :: 0 < k < n && shown[k][r][c] != shown[k - 1][r][c]
  }

  /** What is highlighted after `n` passes, in terms of what they showed. */
  ghost predicate Highlighted(g: Grid, flags: Flags, shown: seq<seq<seq<char>>>, n: nat, h: nat, w: nat) {
    && n <= |shown| && Sized(g, h, w) && (forall k :: 0 <= k < |shown| ==> FitsScreen(shown[k], h, w))
    && forall r, c :: 0 <= r < h && 0 <= c < w ==>
         (g[r][c].standout <==>
            flags.diff &&
            if flags.cumul then EverDiffered(shown, n, r, c)
            else n > 1 && shown[n - 1][r][c] != shown[n - 2][r][c])
  }

  lemma HighlightedNext(g: Grid, flags: Flags, shown: seq<seq<seq<char>>>, k: nat, g': Grid, h: nat, w: nat)
    requires k < |shown| && Sized(g, h, w) && (forall j :: 0 <= j < |shown| ==> FitsScreen(shown[j], h, w))
    requires k > 0 ==> Highlighted(g, flags, shown, k, h, w)
    requires HighlightsDiffer(g', flags, k == 0, g, if k > 0 then shown[k - 1] else [], shown[k], h, w)
    ensures Highlighted(g', flags, shown, k + 1, h, w)
  {
    forall r, c | 0 <= r < h && 0 <= c < w
      ensures EverDiffered(shown, k + 1, r, c) <==>
                k > 0 && (EverDiffered(shown, k, r, c) || shown[k][r][c] != shown[k - 1][r][c])
    {
      EverNext(shown, k, r, c);
    }
    hide EverDiffered;
  }

  lemma EverNext(shown: seq<seq<seq<char>>>, k: nat, r: nat, c: nat)
    requires k < |shown| && forall j :: 0 <= j < |shown| ==> r < |shown[j]| && c < |shown[j][r]|
    ensures EverDiffered(shown, k + 1, r, c) <==>
              k > 0 && (EverDiffered(shown, k, r, c) || shown[k][r][c] != shown[k - 1][r][c])
  {
  }

  /**
   * Passes over any outputs on a screen of fixed size. In the end it shows the last layout; a
   * cell is highlighted only if differences are asked for, and then, cumulatively, if any pass
   * after the first changed its character, and otherwise if the last pass did.
   */
  method RunPasses(screen: Screen, outputs: seq<seq<Token>>) returns (passes: seq<Pass>)
    requires screen.Valid() && screen.firstScreen
    modifies screen
    ensures |passes| == |outputs|
    ensures var shown := Layouts(outputs, screen.height, screen.width, screen.flags.nowrap);
            && (screen.flags.AllDiff() ==> PassesOf(passes, shown))
            && (outputs != [] ==>
                  && ShowsText(screen.grid, shown[|outputs| - 1], screen.height, screen.width)
                  && Highlighted(screen.grid, screen.flags, shown, |outputs|, screen.height, screen.width))
  {
    hide ShowsText, Layout, PassesOf, Highlighted, HighlightsDiffer, FitsScreen, Screen.Valid;
    ScreenSized(screen, outputs);
    ghost var shown := Layouts(outputs, screen.height, screen.width, screen.flags.nowrap);
    NoPasses(shown);
    passes := [];
    for k := 0 to |outputs|
      invariant screen.Valid() && |passes| == k && (screen.firstScreen <==> k == 0)
      invariant k > 0 ==> ShowsText(screen.grid, shown[k - 1], screen.height, screen.width)
      invariant k > 0 ==> Highlighted(screen.grid, screen.flags, shown, k, screen.height, screen.width)
      invariant screen.flags.AllDiff() ==> PassesOf(passes, shown)
    {
      ghost var g0 := screen.grid;
      ScreenSized(screen, outputs);
      var changed := RunPass(screen, outputs[k], if k > 0 then shown[k - 1] else []);
      if screen.flags.AllDiff() {
        PassesNext(passes, shown, changed);
      }
      HighlightedNext(g0, screen.flags, shown, k, screen.grid, screen.height, screen.width);
      passes := passes + [Pass(false, changed)];
    }
  }

  lemma ScreenSized(screen: Screen, outputs: seq<seq<Token>>)
    requires screen.Valid()
    ensures Sized(screen.grid, screen.height, screen.width)
    ensures screen.width > 0 &&
            forall k :: 0 <= k < |outputs| ==>
              FitsScreen(Layouts(outputs, screen.height, screen.width, screen.flags.nowrap)[k],
                         screen.height, screen.width)
  {
  }

  lemma NoPasses(shown: seq<seq<seq<char>>>)
    ensures PassesOf([], shown)
  {
  }

  lemma PassesNext(passes: seq<Pass>, shown: seq<seq<seq<char>>>, changed: bool)
    requires PassesOf(passes, shown) && |passes| < |shown|
    requires var k := |passes|; changed <==> k > 0 && shown[k] != shown[k - 1]
    ensures PassesOf(passes + [Pass(false, changed)], shown)
  {
  }

  /** Pass `k` shows something else than the one before, or as much as `maxCycles` passes before it. */
  ghost predicate ExitsAt(flags: Flags, maxCycles: nat, shown: seq<seq<seq<char>>>, k: nat)
    requires k < |shown|
  {
    || (flags.chgexit && k > 0 && shown[k] != shown[k - 1])
    || (flags.equexit && k >= maxCycles && forall j :: k - maxCycles <= j < k ==> shown[j] == shown[k])
  }

  /**
   * watch over these outputs on a screen of fixed size: it stops after the first pass whose
   * layout differs from the one before, or that ends the first run of equal layouts that is
   * long enough.
   */
  method WatchOutputs(screen: Screen, maxCycles0: int, outputs: seq<seq<Token>>) returns (last: nat)
    requires screen.Valid() && screen.firstScreen && (screen.flags.chgexit || screen.flags.equexit)
    modifies screen
    ensures last <= |outputs|
    ensures var maxCycles := if maxCycles0 < 1 then 1 else maxCycles0;
            var shown := Layouts(outputs, screen.height, screen.width, screen.flags.nowrap);
            && (last < |outputs| ==> ExitsAt(screen.flags, maxCycles, shown, last))
            && (forall k :: 0 <= k < last ==> !ExitsAt(screen.flags, maxCycles, shown, k))
  {
    assert screen.width > 0;
    hide *;
    ghost var shown := Layouts(outputs, screen.height, screen.width, screen.flags.nowrap);
    AllDiffs(screen.flags);
    var passes := RunPasses(screen, outputs);
    last := WatchLoop(screen.flags, maxCycles0, passes);
    ghost var maxCycles := if maxCycles0 < 1 then 1 else maxCycles0;
    forall k | 0 <= k < |outputs|
      ensures ExitsAfter(screen.flags, maxCycles, passes, k + 1) <==> ExitsAt(screen.flags, maxCycles, shown, k)
    {
      ExitSeen(screen.flags, maxCycles, passes, shown, k);
    }
  }

  lemma AllDiffs(flags: Flags)
    requires flags.chgexit || flags.equexit
    ensures flags.AllDiff()
  {
  }

  /** On a screen of fixed size, every pass but the first one counts. */
  lemma {:induction false} CountedAll(passes: seq<Pass>, n: nat)
    requires 0 < n <= |passes| && forall k :: 0 <= k < |passes| ==> !passes[k].resized
    ensures |Counted(passes[..n])| == n - 1
    ensures forall k :: 1 <= k < n ==> Counted(passes[..n])[k - 1] == passes[k].changed
  {
    assert passes[..n][..n - 1] == passes[..n - 1];
    if n > 1 {
      CountedAll(passes, n - 1);
    }
  }

  /** The exit condition in terms of what was shown. */
  lemma ExitSeen(flags: Flags, maxCycles: nat, passes: seq<Pass>, shown: seq<seq<seq<char>>>, k: nat)
    requires PassesOf(passes, shown) && k < |passes| && maxCycles > 0
    ensures ExitsAfter(flags, maxCycles, passes, k + 1) <==> ExitsAt(flags, maxCycles, shown, k)
  {
    ChangesAre(passes, shown, k);
    hide PassesOf, Counted, Quiet;
    QuietShown(Counted(passes[..k + 1]), shown, k, maxCycles);
  }

  lemma ChangesAre(passes: seq<Pass>, shown: seq<seq<seq<char>>>, k: nat)
    requires PassesOf(passes, shown) && k < |passes|
    ensures var before, changes := Counted(passes[..k]), Counted(passes[..k + 1]);
            && |changes| == k && (|before| < k <==> k > 0)
            && forall j :: 1 <= j <= k ==> (changes[j - 1] <==> shown[j] != shown[j - 1])
  {
    CountedAll(passes, k + 1);
    if k > 0 {
      CountedAll(passes, k);
    }
    hide Counted;
  }

  lemma QuietShown(changes: seq<bool>, shown: seq<seq<seq<char>>>, k: nat, n: nat)
    requires k < |shown| && |changes| == k
    requires forall j :: 1 <= j <= k ==> (changes[j - 1] <==> shown[j] != shown[j - 1])
    ensures Quiet(changes) >= n <==> k >= n && forall j :: k - n <= j < k ==> shown[j] == shown[k]
  {
    var q := Quiet(changes);
    hide Quiet;
    EqualRun(changes, shown, k, q);
    if q >= n {
      assert forall j :: k - n <= j < k ==> shown[j] == shown[k];
    } else if k >= n {
      assert changes[k - q - 1];
      assert shown[k - q] == shown[k];
      assert shown[k - q - 1] != shown[k];
    }
  }

  lemma {:induction false} EqualRun(changes: seq<bool>, shown: seq<seq<seq<char>>>, k: nat, q: nat)
    requires k < |shown| && |changes| == k && q <= k
    requires forall j :: 1 <= j <= k ==> (changes[j - 1] <==> shown[j] != shown[j - 1])
    requires forall i :: k - q <= i < k ==> !changes[i]
    ensures forall j :: k - q <= j <= k ==> shown[j] == shown[k]
  {
    if q > 0 {
      EqualRun(changes, shown, k, q - 1);
      assert !changes[k - q];
      assert shown[k - q + 1] == shown[k - q];
    }
  }
}
