/**
 * local/procio.c: writes to a proc file are gathered until a newline arrives, and are cut
 * at delimiters into lines when the kernel refuses them in one piece.
 */
module Procio {
  import opened Bytes

  const LINELEN: nat := 4096
  const BUFSIZ: nat := 8192

  // ----- Reference: cutting a text into lines -----------------------------------------

  /** A piece short enough for one write that ends in `last`. */
  predicate Piece(p: seq<byte>, last: byte) {
    0 < |p| <= LINELEN && p[|p| - 1] == last
  }

  /** Some way of cutting: every piece ends at a delimiter, the last one at a newline. */
  ghost predicate Cutting(pieces: seq<seq<byte>>, delim: byte) {
    && pieces != []
    && (forall i :: 0 <= i < |pieces| - 1 ==> Piece(pieces[i], delim))
    && Piece(pieces[|pieces| - 1], NEWLINE)
  }

  function Joined(pieces: seq<seq<byte>>): seq<byte> {
    if pieces == [] then [] else pieces[0] + Joined(pieces[1..])
  }

  ghost predicate CutsInto(text: seq<byte>, pieces: seq<seq<byte>>, delim: byte) {
    Cutting(pieces, delim) && Joined(pieces) == text
  }

  /** A piece as it is written: the delimiter at its end has become a newline. */
  function AsLine(p: seq<byte>): (r: seq<byte>)
    ensures |r| == |p|
  {
    if p == [] then [] else p[..|p| - 1] + [NEWLINE]
  }

  function AsLines(pieces: seq<seq<byte>>): (r: seq<seq<byte>>)
    ensures |r| == |pieces| && forall i :: 0 <= i < |pieces| ==> r[i] == AsLine(pieces[i])
  {
    seq(|pieces|, i requires 0 <= i < |pieces| => AsLine(pieces[i]))
  }

  // ----- What the loop does, on values --------------------------------------------------

  /** memrchr: the last index of `b`, or -1. */
  function LastIndex(s: seq<byte>, b: byte): (k: int)
    ensures -1 <= k < |s|
    ensures k >= 0 ==> s[k] == b
    ensures forall i :: k < i < |s| ==> s[i] != b
  {
    if s == [] then -1
    else if s[|s| - 1] == b then |s| - 1
    else LastIndex(s[..|s| - 1], b)
  }

  /** Whether the loop got through, and the pieces it wrote. */
  datatype Split = Split(ok: bool, pieces: seq<seq<byte>>)

  /** How far the next piece reaches, 0 when the loop gives up. */
  function NextCut(text: seq<byte>, delim: byte): (n: nat)
    ensures n <= |text| && n <= LINELEN
  {
    1 + if |text| > LINELEN then LastIndex(text[..LINELEN], delim) else LastIndex(text, NEWLINE)
  }

  function GreedySplit(text: seq<byte>, delim: byte): Split
    decreases |text|
  {
    var n := NextCut(text, delim);
    if n == 0 then Split(false, [])
    else if n == |text| then Split(true, [text])
    else
      var rest := GreedySplit(text[n..], delim);
      Split(rest.ok, [text[..n]] + rest.pieces)
  }

  /** One turn of the split. */
  lemma GreedyStep(text: seq<byte>, delim: byte)
    ensures var n := NextCut(text, delim);
            if n == 0 then GreedySplit(text, delim) == Split(false, [])
            else if n == |text| then GreedySplit(text, delim) == Split(true, [text])
            else
              var rest := GreedySplit(text[n..], delim);
              GreedySplit(text, delim) == Split(rest.ok, [text[..n]] + rest.pieces)
  {
    hide NextCut;
  }

  lemma Assoc(a: seq<seq<byte>>, b: seq<seq<byte>>, c: seq<seq<byte>>)
    ensures a + (b + c) == (a + b) + c
  {
  }

  // ----- Theorems ---------------------------------------------------------------------------

  lemma CutsIntoCons(p: seq<byte>, text: seq<byte>, pieces: seq<seq<byte>>, delim: byte)
    requires Piece(p, delim) && CutsInto(text, pieces, delim)
    ensures CutsInto(p + text, [p] + pieces, delim)
  {
    assert ([p] + pieces)[1..] == pieces;
  }

  /** No newline comes after the last newline, so a short text is cut in one piece. */
  lemma ShortRest(text: seq<byte>, delim: byte, pieces: seq<seq<byte>>)
    requires var n := NextCut(text, delim);
             0 < n < |text| && CutsInto(text[n..], pieces, delim)
    ensures |text| > LINELEN
  {
    EndsInNewline(pieces, delim);
    assert text[|text| - 1] == NEWLINE;
  }

  /** When the loop gets through, its pieces are a cutting of the text. */
  lemma {:induction false} SplitIsCutting(text: seq<byte>, delim: byte)
    requires GreedySplit(text, delim).ok
    ensures CutsInto(text, GreedySplit(text, delim).pieces, delim)
    decreases |text|
  {
    var n := NextCut(text, delim);
    if n == |text| {
      assert Joined([text]) == text + Joined([]);
    } else {
      SplitIsCutting(text[n..], delim);
      var rest := GreedySplit(text[n..], delim).pieces;
      ShortRest(text, delim, rest);
      CutsIntoCons(text[..n], text[n..], rest, delim);
      assert text == text[..n] + text[n..];
    }
  }

  lemma {:induction false} EndsInNewline(pieces: seq<seq<byte>>, delim: byte)
    requires Cutting(pieces, delim)
    ensures Joined(pieces) != [] && Joined(pieces)[|Joined(pieces)| - 1] == NEWLINE
  {
    if |pieces| > 1 {
      assert Cutting(pieces[1..], delim);
      EndsInNewline(pieces[1..], delim);
    } else {
      assert Joined(pieces) == pieces[0] + Joined([]);
    }
  }

  /** Dropping bytes from the front of a cut text leaves a cut text, with no more pieces. */
  lemma {:induction false} DropFront(pieces: seq<seq<byte>>, delim: byte, i: nat) returns (left: seq<seq<byte>>)
    requires Cutting(pieces, delim) && i < |Joined(pieces)|
    ensures CutsInto(Joined(pieces)[i..], left, delim)
    ensures |left| <= |pieces| && (i >= |pieces[0]| ==> |left| < |pieces|)
  {
    var first, rest := pieces[0], pieces[1..];
    if i < |first| {
      left := [first[i..]] + rest;
      DropFromFirst(pieces, delim, i);
    } else {
      assert rest != [];
      assert Cutting(rest, delim);
      assert Joined(pieces) == first + Joined(rest);
      hide *;
      left := DropFront(rest, delim, i - |first|);
      assert (first + Joined(rest))[i..] == Joined(rest)[i - |first|..];
    }
  }

  lemma DropFromFirst(pieces: seq<seq<byte>>, delim: byte, i: nat)
    requires Cutting(pieces, delim) && i < |pieces[0]|
    ensures CutsInto(Joined(pieces)[i..], [pieces[0][i..]] + pieces[1..], delim)
  {
    var first, rest := pieces[0], pieces[1..];
    var left := [first[i..]] + rest;
    JoinedCons(first[i..], rest);
    assert (first + Joined(rest))[i..] == first[i..] + Joined(rest);
    PieceFrom(first, if |pieces| == 1 then NEWLINE else delim, i);
    hide Joined, Piece;
    assert forall k :: 1 <= k < |left| ==> left[k] == pieces[k];
  }

  lemma PieceFrom(p: seq<byte>, last: byte, i: nat)
    requires Piece(p, last) && i < |p|
    ensures Piece(p[i..], last)
  {
  }

  /**
   * The loop finds a cutting whenever there is one, and no cutting has fewer pieces:
   * always going as far as the window allows never leads into a dead end.
   */
  lemma {:induction false} GreedyIsBest(text: seq<byte>, delim: byte, pieces: seq<seq<byte>>)
    requires CutsInto(text, pieces, delim)
    ensures GreedySplit(text, delim).ok && |GreedySplit(text, delim).pieces| <= |pieces|
    decreases |text|
  {
    EndsInNewline(pieces, delim);
    var n := NextCut(text, delim);
    if |text| > LINELEN {
      var first := pieces[0];
      assert text == first + Joined(pieces[1..]);
      assert Piece(first, delim);
      assert text[..LINELEN][|first| - 1] == first[|first| - 1] == delim;
      assert n >= |first|;
      var left := DropFront(pieces, delim, n);
      GreedyIsBest(text[n..], delim, left);
    } else {
      assert n == |text|;
    }
  }

  /** The split succeeds exactly on the texts that can be cut at all. */
  lemma SplitExact(text: seq<byte>, delim: byte)
    ensures GreedySplit(text, delim).ok <==> exists pieces :: CutsInto(text, pieces, delim)
  {
    if GreedySplit(text, delim).ok {
      SplitIsCutting(text, delim);
    }
    forall pieces | CutsInto(text, pieces, delim)
      ensures GreedySplit(text, delim).ok
    {
      GreedyIsBest(text, delim, pieces);
    }
  }

  predicate WindowHas(text: seq<byte>, i: nat, delim: byte)
    requires i + LINELEN <= |text|
  {
    delim in text[i..i + LINELEN]
  }

  /** A sufficient condition on the text alone: a delimiter in every window, a newline at the end. */
  lemma {:induction false} WindowsSuffice(text: seq<byte>, delim: byte)
    requires text != [] && text[|text| - 1] == NEWLINE
    requires forall i: nat :: i < |text| - LINELEN ==> WindowHas(text, i, delim)
    ensures GreedySplit(text, delim).ok
    decreases |text|
  {
    var n := NextCut(text, delim);
    if |text| > LINELEN {
      assert WindowHas(text, 0, delim);
      assert text[0..LINELEN] == text[..LINELEN];
      assert n > 0;
      hide NextCut, WindowHas;
      forall i: nat | i < |text[n..]| - LINELEN
        ensures WindowHas(text[n..], i, delim)
      {
        WindowShifted(text, n, i, delim);
      }
      WindowsSuffice(text[n..], delim);
    }
  }

  lemma WindowShifted(text: seq<byte>, n: nat, i: nat, delim: byte)
    requires n + i + LINELEN <= |text| && WindowHas(text, n + i, delim)
    ensures WindowHas(text[n..], i, delim)
  {
    var k :| n + i <= k < n + i + LINELEN && text[k] == delim;
    assert text[n..][i..i + LINELEN][k - n - i] == delim;
  }

  lemma PieceAsLine(p: seq<byte>, last: byte)
    requires Piece(p, last)
    ensures Piece(AsLine(p), NEWLINE) && AsLine(p)[..|p| - 1] == p[..|p| - 1] && p[|p| - 1] == last
    ensures last == NEWLINE ==> AsLine(p) == p
  {
    assert p == p[..|p| - 1] + [last];
  }

  /** Every line written is at most LINELEN long, ends in a newline, and has only its last byte changed. */
  lemma LinesWritten(text: seq<byte>, delim: byte, i: nat)
    requires GreedySplit(text, delim).ok && i < |GreedySplit(text, delim).pieces|
    ensures var p := GreedySplit(text, delim).pieces[i];
            && 0 < |p| <= 4096 && AsLine(p)[|p| - 1] == '\n' as int
            && Piece(AsLine(p), NEWLINE) && AsLine(p)[..|p| - 1] == p[..|p| - 1]
            && (p[|p| - 1] == NEWLINE || p[|p| - 1] == delim)
            && (i == |GreedySplit(text, delim).pieces| - 1 ==> AsLine(p) == p)
  {
    SplitIsCutting(text, delim);
    hide *;
    var pieces := GreedySplit(text, delim).pieces;
    var last := CuttingPiece(text, pieces, delim, i);
    PieceAsLine(pieces[i], last);
  }

  lemma CuttingPiece(text: seq<byte>, pieces: seq<seq<byte>>, delim: byte, i: nat) returns (last: byte)
    requires CutsInto(text, pieces, delim) && i < |pieces|
    ensures Piece(pieces[i], last) && (last == delim || last == NEWLINE) && |pieces[i]| > 0
    ensures i == |pieces| - 1 ==> last == NEWLINE
  {
    last := if i == |pieces| - 1 then NEWLINE else delim;
  }

  /** The lines together have the text's length, and differ from it at most where a delimiter was. */
  lemma {:induction false} SameLength(pieces: seq<seq<byte>>, delim: byte)
    requires forall i :: 0 <= i < |pieces| ==> pieces[i] != [] && pieces[i][|pieces[i]| - 1] in {delim, NEWLINE}
    ensures |Joined(AsLines(pieces))| == |Joined(pieces)|
    ensures forall k :: 0 <= k < |Joined(pieces)| ==>
              Joined(AsLines(pieces))[k] == Joined(pieces)[k]
              || (Joined(pieces)[k] == delim && Joined(AsLines(pieces))[k] == NEWLINE)
  {
    if pieces != [] {
      var p, rest := pieces[0], pieces[1..];
      assert pieces == [p] + rest;
      SameLength(rest, delim);
      LinesCons(p, rest);
      hide *;
      JoinedCons(p, rest);
      JoinedCons(AsLine(p), AsLines(rest));
      LineBytes(p, delim);
    }
  }

  lemma LineBytes(p: seq<byte>, delim: byte)
    requires |p| > 0 && p[|p| - 1] in {delim, NEWLINE}
    ensures forall k :: 0 <= k < |p| ==> AsLine(p)[k] == p[k] || (p[k] == delim && AsLine(p)[k] == NEWLINE)
  {
  }

  // ----- Writes that fall short -------------------------------------------------------------------

  /** The last byte of a piece turned into a newline. */
  function Cut(text: seq<byte>, n: nat): (r: seq<byte>)
    requires 0 < n <= |text|
    ensures |r| == |text|
  {
    text[n - 1 := NEWLINE]
  }

  /** What the loop comes to: its result, what the file took, the buffer, and how much is not accounted for. */
  datatype Outcome = Outcome(len: int, lines: seq<seq<byte>>, after: seq<byte>, left: nat)

  /** What write(2) may return for write number `k` of `n` bytes: an error, or how many it took. */
  ghost predicate Answers(answer: (nat, nat) -> int) {
    forall k: nat, n: nat :: answer(k, n) <= n
  }

  ghost predicate InFull(answer: (nat, nat) -> int) {
    forall k: nat, n: nat :: answer(k, n) == n
  }

  /** The loop from write number `k` on: what a write did not take is cut anew. */
  function WriteOut(text: seq<byte>, delim: byte, answer: (nat, nat) -> int, k: nat): Outcome
    requires Answers(answer)
    decreases |text|
  {
    var n := NextCut(text, delim);
    if n == 0 then Outcome(-1, [], text, |text|)
    else
      var cut, len := Cut(text, n), answer(k, n);
      if len < 1 then Outcome(len, [], cut, |text|)
      else if len >= |text| then Outcome(len, [cut[..len]], cut, |text|)
      else
        var rest := WriteOut(cut[len..], delim, answer, k + 1);
        Outcome(rest.len, [cut[..len]] + rest.lines, cut[..len] + rest.after, rest.left)
  }

  lemma WriteOutStep(text: seq<byte>, delim: byte, answer: (nat, nat) -> int, k: nat)
    requires Answers(answer)
    ensures var n := NextCut(text, delim);
            if n == 0 then WriteOut(text, delim, answer, k) == Outcome(-1, [], text, |text|)
            else
              var cut, len := Cut(text, n), answer(k, n);
              && len <= n
              && if len < 1 then WriteOut(text, delim, answer, k) == Outcome(len, [], cut, |text|)
                 else if len >= |text| then WriteOut(text, delim, answer, k) == Outcome(len, [cut[..len]], cut, |text|)
                 else
                   var rest := WriteOut(cut[len..], delim, answer, k + 1);
                   WriteOut(text, delim, answer, k) ==
                     Outcome(rest.len, [cut[..len]] + rest.lines, cut[..len] + rest.after, rest.left)
  {
    hide NextCut;
  }

  /** Writes that take everything write the greedy pieces as lines. */
  lemma {:induction false} FullWrites(text: seq<byte>, delim: byte, answer: (nat, nat) -> int, k: nat)
    requires Answers(answer) && InFull(answer)
    ensures var o, s := WriteOut(text, delim, answer, k), GreedySplit(text, delim);
            && o.lines == AsLines(s.pieces) && (s.ok <==> o.len > 0) && (!s.ok ==> o.len == -1)
    decreases |text|
  {
    WriteOutStep(text, delim, answer, k);
    GreedyStep(text, delim);
    var n := NextCut(text, delim);
    assert answer(k, n) == n;
    NoLines();
    hide *;
    if n > 0 {
      CutIsLine(text, n);
      if n == |text| {
        assert text[..n] == text;
        OneLine(text);
      } else {
        FullWrites(text[n..], delim, answer, k + 1);
        LinesCons(text[..n], GreedySplit(text[n..], delim).pieces);
      }
    }
  }

  lemma NoLines()
    ensures AsLines([]) == []
  {
  }

  lemma OneLine(p: seq<byte>)
    ensures AsLines([p]) == [AsLine(p)]
  {
  }

  lemma LinesCons(p: seq<byte>, pieces: seq<seq<byte>>)
    ensures AsLines([p] + pieces) == [AsLine(p)] + AsLines(pieces)
  {
  }

  lemma CutIsLine(text: seq<byte>, n: nat)
    requires 0 < n <= |text|
    ensures Cut(text, n)[..n] == AsLine(text[..n]) && Cut(text, n)[n..] == text[n..]
  {
    assert text[..n][..n - 1] == text[..n - 1];
  }

  /** `after` is `text` but for delimiters turned into newlines. */
  ghost predicate Near(after: seq<byte>, text: seq<byte>, delim: byte) {
    && |after| == |text|
    && forall i :: 0 <= i < |text| ==>
         after[i] == text[i] || (text[i] in {delim, NEWLINE} && after[i] == NEWLINE)
  }

  lemma NearSelf(text: seq<byte>, delim: byte)
    ensures Near(text, text, delim)
  {
  }

  lemma NearCut(text: seq<byte>, delim: byte)
    requires NextCut(text, delim) > 0
    ensures Near(Cut(text, NextCut(text, delim)), text, delim)
  {
    var n := NextCut(text, delim);
    assert text[n - 1] in {delim, NEWLINE} by {
      if |text| > LINELEN {
        assert text[..LINELEN][n - 1] == delim;
      }
    }
  }

  lemma NearRest(cut: seq<byte>, text: seq<byte>, delim: byte, len: nat, after: seq<byte>)
    requires Near(cut, text, delim) && len <= |text| && Near(after, cut[len..], delim)
    ensures Near(cut[..len] + after, text, delim)
  {
    forall i | len <= i < |text|
      ensures after[i - len] == text[i] || (text[i] in {delim, NEWLINE} && after[i - len] == NEWLINE)
    {
      assert cut[len..][i - len] == cut[i];
    }
  }

  /**
   * Whatever the writes answer: the file has taken a front part of the text, delimiters
   * turned into newlines at most, and the loop reports success exactly when it took it all.
   */
  lemma {:induction false} NothingGarbled(text: seq<byte>, delim: byte, answer: (nat, nat) -> int, k: nat)
    requires Answers(answer) && text != []
    ensures var o := WriteOut(text, delim, answer, k);
            && Near(o.after, text, delim) && Joined(o.lines) <= o.after && o.left <= |text|
            && (o.len > 0 <==> Joined(o.lines) == o.after)
    decreases |text|
  {
    hide WriteOut, NextCut, Near;
    WriteOutStep(text, delim, answer, k);
    var n := NextCut(text, delim);
    NearSelf(text, delim);
    if n > 0 {
      NearCut(text, delim);
      var cut, len := Cut(text, n), answer(k, n);
      if len >= |text| {
        assert cut[..len] == cut;
        assert Joined([cut]) == cut + Joined([]);
      } else if len >= 1 {
        NothingGarbled(cut[len..], delim, answer, k + 1);
        var r := WriteOut(cut[len..], delim, answer, k + 1);
        NearRest(cut, text, delim, len, r.after);
        JoinedCons(cut[..len], r.lines);
        PrefixConcat(cut[..len], Joined(r.lines), r.after);
        NearLength(r.after, cut[len..], delim);
      }
    }
  }

  lemma NearLength(after: seq<byte>, text: seq<byte>, delim: byte)
    requires Near(after, text, delim)
    ensures |after| == |text|
  {
  }

  lemma PrefixConcat(a: seq<byte>, b: seq<byte>, c: seq<byte>)
    requires b <= c
    ensures a + b <= a + c && (a + b == a + c <==> b == c)
  {
    if a + b == a + c {
      assert (a + b)[|a|..] == b && (a + c)[|a|..] == c;
    }
  }

  lemma JoinedCons(p: seq<byte>, pieces: seq<seq<byte>>)
    ensures Joined([p] + pieces) == p + Joined(pieces)
  {
    assert ([p] + pieces)[1..] == pieces;
  }

  // ----- The stream ---------------------------------------------------------------------------

  /** What write(2) answers to the whole buffer. */
  datatype OneShot = Accepted(n: nat) | Invalid | Failed

  class Cookie {
    var buf: array<byte>
    var offset: nat
    const delim: byte
    /** The bytes each write took, in order. */
    var written: seq<seq<byte>>

    ghost predicate Valid()
      reads this
    {
      offset <= buf.Length
    }

    ghost function Content(): seq<byte>
      requires Valid()
      reads this, buf
    {
      buf[..offset]
    }

    /** fprocopen with mode "w" and an optional delimiter. */
    constructor (delim: byte)
      ensures Valid() && fresh(buf) && Content() == [] && written == [] && this.delim == delim
    {
      buf := new byte[BUFSIZ];
      offset, written := 0, [];
      this.delim := delim;
    }

    /** The realloc loop: room for `extra` more bytes. */
    method Reserve(extra: nat)
      requires Valid() && extra > 0
      modifies this`buf
      ensures Valid() && offset + extra <= buf.Length && (buf == old(buf) || fresh(buf))
      ensures Content() == old(Content())
    {
      var count := buf.Length;
      while count < offset + extra
        invariant count >= buf.Length
        decreases offset + extra - count
      {
        count := count + extra;
      }
      if count > buf.Length {
        var ptr := new byte[count];
        forall i | 0 <= i < buf.Length {
          ptr[i] := buf[i];
        }
        assert ptr[..offset] == buf[..offset];
        buf := ptr;
      }
    }

    /** The realloc loop and the memcpy: append to the buffer. */
    method Append(data: seq<byte>)
      requires Valid() && data != []
      modifies this`buf, this`offset, buf
      ensures Valid() && Content() == old(Content()) + data && (buf == old(buf) || fresh(buf))
    {
      Reserve(|data|);
      ghost var before := buf[..offset];
      forall i | 0 <= i < |data| {
        buf[offset + i] := data[i];
      }
      var end := offset + |data|;
      assert buf[..offset] == before;
      assert buf[offset..end] == data;
      assert buf[..end] == buf[..offset] + buf[offset..end];
      offset := end;
    }

    /** The buffer holds `done`, up to `at`, and then `rest`. */
    static ghost predicate Holds(buffer: seq<byte>, at: nat, offset: nat, done: seq<byte>, rest: seq<byte>) {
      && at + offset <= |buffer| && |done| == at && |rest| == offset
      && buffer[..at + offset] == done + rest
    }

    /** A delimiter is overwritten. */
    static lemma HoldsCut(buffer: seq<byte>, at: nat, offset: nat, done: seq<byte>, rest: seq<byte>, n: nat)
      requires Holds(buffer, at, offset, done, rest) && 0 < n <= offset
      ensures Holds(buffer[at + n - 1 := NEWLINE], at, offset, done, Cut(rest, n))
    {
      var after := buffer[at + n - 1 := NEWLINE];
      forall i | 0 <= i < at + offset
        ensures after[..at + offset][i] == (done + Cut(rest, n))[i]
      {
        assert buffer[..at + offset][i] == (done + rest)[i];
      }
    }

    /** Part of the rest is written. */
    static lemma HoldsMore(buffer: seq<byte>, at: nat, offset: nat, done: seq<byte>, rest: seq<byte>, len: nat)
      requires Holds(buffer, at, offset, done, rest) && len <= offset
      ensures buffer[at..at + len] == rest[..len]
      ensures Holds(buffer, at + len, offset - len, done + rest[..len], rest[len..])
    {
      assert buffer[at..at + len] == buffer[..at + offset][at..][..len];
      assert (done + rest)[at..] == rest;
      assert done + rest[..len] + rest[len..] == done + rest;
    }

    /** memrchr over the window, or over the rest: where the next piece ends, 0 for a missing delimiter. */
    method FindEnd(at: nat, ghost done: seq<byte>, ghost rest: seq<byte>) returns (amount: nat)
      requires Holds(buf[..], at, offset, done, rest)
      ensures amount == NextCut(rest, delim) <= offset
    {
      HoldsMore(buf[..], at, offset, done, rest, offset);
      assert rest[..offset] == rest;
      var token;
      if offset > LINELEN {
        assert buf[at..at + LINELEN] == buf[at..at + offset][..LINELEN];
        token := LastIndex(buf[at..at + LINELEN], delim);
      } else {
        token := LastIndex(buf[at..at + offset], NEWLINE);
      }
      amount := token + 1;
    }

    /** The outcome of the whole loop, given what was done before turn `k` and what is left. */
    static ghost predicate Resumes(o: Outcome, before: seq<seq<byte>>, written: seq<seq<byte>>, done: seq<byte>,
                                   rest: seq<byte>, delim: byte, answer: (nat, nat) -> int, k: nat)
      requires Answers(answer)
    {
      var r := WriteOut(rest, delim, answer, k);
      && o.len == r.len && before + o.lines == written + r.lines
      && o.after == done + r.after && o.left == r.left
    }

    /** A turn whose write accepts some of its piece, but not all of the rest. */
    static lemma ResumesNext(o: Outcome, before: seq<seq<byte>>, written: seq<seq<byte>>, done: seq<byte>,
                             rest: seq<byte>, delim: byte, answer: (nat, nat) -> int, k: nat)
      requires Answers(answer) && Resumes(o, before, written, done, rest, delim, answer, k)
      ensures var n := NextCut(rest, delim);
              if n == 0 then
                o == Outcome(-1, o.lines, done + rest, |rest|) && before + o.lines == written
              else
                var cut, len := Cut(rest, n), answer(k, n);
                if len < 1 then o == Outcome(len, o.lines, done + cut, |rest|) && before + o.lines == written
                else if len >= |rest| then
                  o == Outcome(len, o.lines, done + cut, |rest|) && before + o.lines == written + [cut[..len]]
                else Resumes(o, before, written + [cut[..len]], done + cut[..len], cut[len..], delim, answer, k + 1)
    {
      WriteOutStep(rest, delim, answer, k);
      var n := NextCut(rest, delim);
      hide WriteOut, NextCut;
      assert written + [] == written;
      if n > 0 && 1 <= answer(k, n) < |rest| {
        var cut, len := Cut(rest, n), answer(k, n);
        var r := WriteOut(cut[len..], delim, answer, k + 1);
        assert written + ([cut[..len]] + r.lines) == (written + [cut[..len]]) + r.lines;
        assert done + (cut[..len] + r.after) == (done + cut[..len]) + r.after;
      }
    }

    /** One turn of the loop: write the next piece, its last byte turned into a newline. */
    method WritePiece(at: nat, answer: (nat, nat) -> int, k: nat, ghost o: Outcome, ghost before: seq<seq<byte>>,
                      ghost done: seq<byte>, ghost rest: seq<byte>)
      returns (len: int, more: bool, ghost done': seq<byte>, ghost rest': seq<byte>)
      requires offset > 0 && at + offset <= buf.Length && Holds(buf[..], at, offset, done, rest)
      requires Answers(answer) && Resumes(o, before, written, done, rest, delim, answer, k)
      modifies this`written, buf
      ensures more ==> 0 < len < offset && Holds(buf[..], at + len, offset - len, done', rest')
                       && Resumes(o, before, written, done', rest', delim, answer, k + 1)
      ensures !more ==> Holds(buf[..], at, offset, done', rest') && written == before + o.lines
                        && len == o.len && done' + rest' == o.after && offset == o.left
    {
      hide *;
      ResumesNext(o, before, written, done, rest, delim, answer, k);
      HoldsLengths(buf[..], at, offset, done, rest);
      var amount := FindEnd(at, done, rest);
      if amount == 0 {
        return -1, false, done, rest;
      }
      HoldsCut(buf[..], at, offset, done, rest, amount);
      buf[at + amount - 1] := NEWLINE;
      ghost var cut := Cut(rest, amount);
      len := answer(k, amount);
      AnswerFits(answer, k, amount);
      if len < 1 {
        return len, false, done, cut;
      }
      HoldsMore(buf[..], at, offset, done, cut, len);
      written := written + [buf[at..at + len]];
      if len >= offset {
        return len, false, done, cut;
      }
      return len, true, done + cut[..len], cut[len..];
    }

    static lemma AnswerFits(answer: (nat, nat) -> int, k: nat, n: nat)
      requires Answers(answer)
      ensures answer(k, n) <= n
    {
    }

    static lemma HoldsLengths(buffer: seq<byte>, at: nat, offset: nat, done: seq<byte>, rest: seq<byte>)
      requires Holds(buffer, at, offset, done, rest)
      ensures |done| == at && |rest| == offset && at + offset <= |buffer| && buffer[..at + offset] == done + rest
    {
    }

    static lemma HoldsStart(buffer: seq<byte>, offset: nat, before: seq<seq<byte>>, delim: byte,
                            answer: (nat, nat) -> int)
      requires offset <= |buffer| && Answers(answer)
      ensures Holds(buffer, 0, offset, [], buffer[..offset])
      ensures Resumes(WriteOut(buffer[..offset], delim, answer, 0), before, before, [], buffer[..offset], delim, answer, 0)
    {
      hide WriteOut;
      var o := WriteOut(buffer[..offset], delim, answer, 0);
      assert [] + o.after == o.after && [] + buffer[..offset] == buffer[..offset];
    }

    /** The do-while loop, `answer` being what its writes return. */
    method SplitWrite(answer: (nat, nat) -> int) returns (len: int)
      requires Valid() && offset > 0 && Answers(answer)
      modifies this`offset, this`written, buf
      ensures var text := old(Content());
              var o := WriteOut(text, delim, answer, 0);
              && len == o.len && written == old(written) + o.lines
              && Valid() && offset == o.left && |text| <= buf.Length && buf[..|text|] == o.after
    {
      ghost var text := buf[..offset];
      ghost var o := WriteOut(text, delim, answer, 0);
      ghost var done: seq<byte>, rest: seq<byte> := [], text;
      var at: nat, k: nat, more := 0, 0, true;
      HoldsStart(buf[..], offset, written, delim, answer);
      hide *;
      len := 0;
      while more
        invariant 0 < offset && at + offset == |text| <= buf.Length
        invariant Holds(buf[..], at, offset, done, rest)
        invariant more ==> Resumes(o, old(written), written, done, rest, delim, answer, k)
        invariant !more ==> written == old(written) + o.lines && len == o.len
                            && done + rest == o.after && offset == o.left
        decreases more, offset
      {
        len, more, done, rest := WritePiece(at, answer, k, o, old(written), done, rest);
        if more {
          at := at + len;
          offset := offset - len;
          k := k + 1;
        }
      }
      HoldsLengths(buf[..], at, offset, done, rest);
    }

    /**
     * proc_write, `one` being the kernel's answer if the whole buffer is written, and
     * `answer` its answers if the buffer is split.
     */
    method ProcWrite(data: seq<byte>, one: OneShot, answer: (nat, nat) -> int) returns (len: int)
      requires Valid() && Answers(answer)
      requires one.Accepted? ==> one.n <= offset + |data|
      modifies this`buf, this`offset, this`written, buf
      ensures buf == old(buf) || fresh(buf)
      ensures data == [] ==> len == 0 && Valid() && Content() == old(Content()) && written == old(written)
      ensures data != [] && NEWLINE !in data ==>
                len == |data| && Valid() && Content() == old(Content()) + data && written == old(written)
      ensures NEWLINE in data ==>
                var whole := old(Content()) + data;
                match one
                case Accepted(n) => len == (if n > 0 then |data| else 0) && Valid() && Content() == whole
                                    && written == old(written) + [whole[..n]]
                case Failed => len == -1 && Valid() && Content() == whole && written == old(written)
                case Invalid =>
                  if delim == NUL then len == -1 && Valid() && Content() == whole && written == old(written) else
                  var o := WriteOut(whole, delim, answer, 0);
                  && written == old(written) + o.lines && len == (if o.len > 0 then |data| else o.len)
                  && Valid() && offset == o.left && |whole| <= buf.Length && buf[..|whole|] == o.after
    {
      if |data| == 0 {
        return 0;
      }
      var final := NEWLINE in data;
      Append(data);
      len := |data|;
      if final {
        match one {
          case Accepted(n) =>
            written := written + [buf[..n]];
            len := n;
            assert buf[..n] == Content()[..n];
          case Failed =>
            len := -1;
          case Invalid =>
            if delim == NUL {
              return -1;
            }
            len := SplitWrite(answer);
        }
        if len > 0 {
          len := |data|;
        }
      }
    }
  }

  /**
   * A text handed over in several calls, the newline coming last, and refused in one piece.
   *
   * Whatever the later writes answer, the file takes a front part of the text with nothing
   * but delimiters turned into newlines, all of it exactly when success is reported. If they
   * take everything they are given, what the file receives is the text cut into lines, if it
   * can be cut at all and there is a delimiter to cut it at.
   */
  method WriteInParts(parts: seq<seq<byte>>, last: seq<byte>, delim: byte, answer: (nat, nat) -> int)
    returns (lines: seq<seq<byte>>, ok: bool)
    requires NEWLINE in last && Answers(answer)
    requires forall i :: 0 <= i < |parts| ==> NEWLINE !in parts[i]
    ensures var text := Joined(parts) + last;
            && |Joined(lines)| <= |text| && Near(Joined(lines), text[..|Joined(lines)|], delim)
            && (ok <==> |Joined(lines)| == |text|)
    ensures InFull(answer) ==>
              var text := Joined(parts) + last;
              && (ok <==> delim != NUL && exists pieces :: CutsInto(text, pieces, delim))
              && (ok ==> exists pieces :: CutsInto(text, pieces, delim) && lines == AsLines(pieces))
  {
    var cookie := new Cookie(delim);
    assert parts[..0] == [];
    for i := 0 to |parts|
      invariant cookie.Valid() && fresh(cookie) && fresh(cookie.buf) && cookie.written == [] && cookie.delim == delim
      invariant cookie.Content() == Joined(parts[..i])
    {
      var len := cookie.ProcWrite(parts[i], Failed, answer);
      JoinedSnoc(parts[..i], parts[i]);
      assert parts[..i + 1] == parts[..i] + [parts[i]];
    }
    assert parts[..|parts|] == parts;
    ghost var text := Joined(parts) + last;
    var len := cookie.ProcWrite(last, Invalid, answer);
    lines, ok := cookie.written, len > 0;
    if delim == NUL {
      NothingWritten(text, delim);
    } else {
      assert lines == WriteOut(text, delim, answer, 0).lines;
      TakenFront(text, delim, answer);
      if InFull(answer) {
        FullCutting(text, delim, answer);
      }
    }
  }

  // ----- Several calls that carry a newline -----------------------------------------------------

  /** What the file receives when every write is taken whole: each newline sends all that was gathered. */
  function Resent(calls: seq<seq<byte>>): seq<seq<byte>> {
    if calls == [] then []
    else
      var n := |calls| - 1;
      Resent(calls[..n]) + if NEWLINE in calls[n] then [Joined(calls)] else []
  }

  /** Calls of one stream; the buffer is never emptied, so a newline sends again what earlier ones sent. */
  method WriteCalls(calls: seq<seq<byte>>, delim: byte, answer: (nat, nat) -> int) returns (written: seq<seq<byte>>)
    requires Answers(answer)
    ensures written == Resent(calls)
  {
    var cookie := new Cookie(delim);
    assert calls[..0] == [];
    for i := 0 to |calls|
      invariant cookie.Valid() && fresh(cookie) && fresh(cookie.buf)
      invariant cookie.Content() == Joined(calls[..i]) && cookie.written == Resent(calls[..i])
    {
      if NEWLINE in calls[i] {
        WriteWhole(cookie, calls[i], answer);
      } else {
        var len := cookie.ProcWrite(calls[i], Failed, answer);
      }
      JoinedSnoc(calls[..i], calls[i]);
      assert calls[..i + 1] == calls[..i] + [calls[i]];
      assert calls[..i + 1][..i] == calls[..i];
    }
    assert calls[..|calls|] == calls;
    return cookie.written;
  }

  ghost predicate NoNewline(calls: seq<seq<byte>>) {
    forall i :: 0 <= i < |calls| ==> NEWLINE !in calls[i]
  }

  /** One call carries a newline, and nothing comes after it. */
  ghost predicate OnlyFlush(calls: seq<seq<byte>>, k: nat) {
    && k < |calls| && NEWLINE in calls[k]
    && (forall i :: 0 <= i < k ==> NEWLINE !in calls[i])
    && (forall i :: k < i < |calls| ==> calls[i] == [])
  }

  ghost predicate FlushedOnce(calls: seq<seq<byte>>) {
    exists k :: OnlyFlush(calls, k)
  }

  /** The file receives the text, and receives it once, exactly when a single newline call ends it. */
  lemma {:induction false} SentOnce(calls: seq<seq<byte>>)
    ensures Joined(Resent(calls)) == Joined(calls) <==> Joined(calls) == [] || FlushedOnce(calls)
  {
    if calls != [] {
      var n := |calls| - 1;
      var before, last := calls[..n], calls[n];
      if NEWLINE in last {
        FlushLast(calls);
      } else if last == [] {
        SentOnce(before);
        FlushBefore(calls);
        CallsSnoc(calls);
        hide *;
        assert Joined(before) + [] == Joined(before) && Joined(Resent(before)) + [] == Joined(Resent(before));
      } else {
        TailUnsent(calls);
      }
    }
  }

  /** A last call with a newline. */
  lemma FlushLast(calls: seq<seq<byte>>)
    requires calls != [] && NEWLINE in calls[|calls| - 1]
    ensures Joined(calls) != [] && (Joined(Resent(calls)) == Joined(calls) <==> FlushedOnce(calls))
  {
    var before := calls[..|calls| - 1];
    hide *;
    NothingSent(before);
    FlushNow(calls);
    CallsSnoc(calls);
    NothingAdded(Joined(Resent(before)), Joined(calls));
  }

  lemma NothingAdded(a: seq<byte>, b: seq<byte>)
    ensures a + b == b <==> a == []
  {
    assert |a + b| == |a| + |b|;
    assert [] + b == b;
  }

  /** A last call that writes something, but no newline. */
  lemma TailUnsent(calls: seq<seq<byte>>)
    requires calls != [] && calls[|calls| - 1] != [] && NEWLINE !in calls[|calls| - 1]
    ensures Joined(calls) != [] && Joined(Resent(calls)) != Joined(calls) && !FlushedOnce(calls)
  {
    var n := |calls| - 1;
    assert !FlushedOnce(calls);
    CallsSnoc(calls);
    hide *;
    assert Joined(Resent(calls[..n])) + [] == Joined(Resent(calls[..n]));
    SentTwiceShows(calls[..n]);
    CountConcat(Joined(calls[..n]), calls[n]);
  }

  lemma CallsSnoc(calls: seq<seq<byte>>)
    requires calls != []
    ensures var n := |calls| - 1;
            && Joined(calls) == Joined(calls[..n]) + calls[n] && (calls[n] != [] ==> Joined(calls) != [])
            && Joined(Resent(calls)) == Joined(Resent(calls[..n])) + if NEWLINE in calls[n] then Joined(calls) else []
  {
    var n := |calls| - 1;
    JoinedSnoc(calls[..n], calls[n]);
    assert calls == calls[..n] + [calls[n]];
    if NEWLINE in calls[n] {
      JoinedSnoc(Resent(calls[..n]), Joined(calls));
    } else {
      assert Resent(calls[..n]) + [] == Resent(calls[..n]);
      assert Joined(Resent(calls[..n])) + [] == Joined(Resent(calls[..n]));
    }
  }

  lemma FlushNow(calls: seq<seq<byte>>)
    requires calls != [] && NEWLINE in calls[|calls| - 1]
    ensures FlushedOnce(calls) <==> NoNewline(calls[..|calls| - 1])
  {
    var before := calls[..|calls| - 1];
    assert forall i :: 0 <= i < |before| ==> before[i] == calls[i];
    if NoNewline(before) {
      assert OnlyFlush(calls, |calls| - 1);
    }
  }

  lemma FlushBefore(calls: seq<seq<byte>>)
    requires calls != [] && calls[|calls| - 1] == []
    ensures FlushedOnce(calls) <==> FlushedOnce(calls[..|calls| - 1])
  {
    var before := calls[..|calls| - 1];
    forall k | OnlyFlush(calls, k)
      ensures OnlyFlush(before, k)
    {
    }
    forall k | OnlyFlush(before, k)
      ensures OnlyFlush(calls, k)
    {
      assert forall i :: 0 <= i < |before| ==> calls[i] == before[i];
    }
  }

  /** Nothing is sent without a newline, and whatever is sent carries one. */
  lemma {:induction false} NothingSent(calls: seq<seq<byte>>)
    ensures Joined(Resent(calls)) == [] <==> NoNewline(calls)
    ensures NEWLINE !in Joined(Resent(calls)) ==> Joined(Resent(calls)) == []
  {
    if calls != [] {
      var n := |calls| - 1;
      NothingSent(calls[..n]);
      CallsSnoc(calls);
      NewlineIn(calls);
    }
  }

  lemma NewlineIn(calls: seq<seq<byte>>)
    requires calls != []
    ensures var n := |calls| - 1;
            && (NEWLINE in calls[n] ==> NEWLINE in Joined(calls))
            && (NoNewline(calls) <==> NoNewline(calls[..n]) && NEWLINE !in calls[n])
  {
    var n := |calls| - 1;
    CallsSnoc(calls);
    assert forall i :: 0 <= i < n ==> calls[..n][i] == calls[i];
  }

  function Newlines(s: seq<byte>): nat {
    multiset(s)[NEWLINE]
  }

  lemma CountConcat(a: seq<byte>, b: seq<byte>)
    ensures Newlines(a + b) == Newlines(a) + Newlines(b)
    ensures Newlines(b) == 0 <==> NEWLINE !in b
  {
  }

  /** Sending something twice shows in the number of newlines. */
  lemma {:induction false} SentTwiceShows(calls: seq<seq<byte>>)
    ensures Newlines(Joined(Resent(calls))) == Newlines(Joined(calls))
            ==> |Joined(Resent(calls))| <= |Joined(calls)|
  {
    if calls != [] {
      var n := |calls| - 1;
      CallsSnoc(calls);
      NothingSent(calls[..n]);
      SentTwiceShows(calls[..n]);
      hide Newlines;
      CountConcat(Joined(calls[..n]), calls[n]);
      CountConcat(Joined(calls), Joined(Resent(calls[..n])));
      CountConcat(Joined(Resent(calls[..n])), Joined(calls));
    }
  }

  /** After a split nothing is accounted for of the last piece. */
  lemma {:induction false} LeftBehind(text: seq<byte>, delim: byte, answer: (nat, nat) -> int, k: nat)
    requires Answers(answer) && InFull(answer) && GreedySplit(text, delim).ok
    ensures var pieces := GreedySplit(text, delim).pieces;
            pieces != [] && WriteOut(text, delim, answer, k).left == |pieces[|pieces| - 1]|
    decreases |text|
  {
    WriteOutStep(text, delim, answer, k);
    GreedyStep(text, delim);
    var n := NextCut(text, delim);
    assert answer(k, n) == n;
    hide *;
    if 0 < n < |text| {
      CutIsLine(text, n);
      LeftBehind(text[n..], delim, answer, k + 1);
    }
  }

  /**
   * A newline call after one that was split: it sends as many bytes from the front of the
   * first text as its last piece was long, and only then its own.
   */
  method WriteAfterSplit(text: seq<byte>, next: seq<byte>, delim: byte, answer: (nat, nat) -> int)
    returns (lines: seq<seq<byte>>)
    requires Answers(answer) && InFull(answer) && delim != NUL
    requires NEWLINE in text && NEWLINE in next && GreedySplit(text, delim).ok
    ensures var pieces := GreedySplit(text, delim).pieces;
            var n := |pieces[|pieces| - 1]|;
            && n <= |Joined(AsLines(pieces))|
            && lines == AsLines(pieces) + [Joined(AsLines(pieces))[..n] + next]
  {
    SplitOutcome(text, delim, answer);
    hide *;
    var cookie := FirstSplit(text, delim, answer);
    WriteWhole(cookie, next, answer);
    return cookie.written;
  }

  /** A newline call whose write takes the whole buffer. */
  method WriteWhole(cookie: Cookie, data: seq<byte>, answer: (nat, nat) -> int)
    requires cookie.Valid() && Answers(answer) && NEWLINE in data
    modifies cookie`buf, cookie`offset, cookie`written, cookie.buf
    ensures cookie.Valid() && (cookie.buf == old(cookie.buf) || fresh(cookie.buf))
    ensures cookie.Content() == old(cookie.Content()) + data
    ensures cookie.written == old(cookie.written) + [old(cookie.Content()) + data]
  {
    hide WriteOut, Answers;
    WholeTaken(cookie.Content() + data);
    var len := cookie.ProcWrite(data, Accepted(cookie.offset + |data|), answer);
  }

  method FirstSplit(text: seq<byte>, delim: byte, answer: (nat, nat) -> int) returns (cookie: Cookie)
    requires Answers(answer) && delim != NUL && NEWLINE in text
    ensures fresh(cookie) && fresh(cookie.buf) && cookie.Valid()
    ensures var o := WriteOut(text, delim, answer, 0);
            && cookie.written == o.lines && o.left <= |o.after|
            && cookie.offset == o.left && cookie.Content() == o.after[..o.left]
  {
    hide WriteOut, Near, Joined, Answers;
    NothingGarbled(text, delim, answer, 0);
    ghost var o := WriteOut(text, delim, answer, 0);
    NearLength(o.after, text, delim);
    cookie := new Cookie(delim);
    assert [] + text == text;
    var len := cookie.ProcWrite(text, Invalid, answer);
    assert [] + o.lines == o.lines;
    assert cookie.buf[..|text|][..o.left] == cookie.buf[..o.left];
  }

  lemma WholeTaken(s: seq<byte>)
    ensures s[..|s|] == s
  {
  }

  lemma SplitOutcome(text: seq<byte>, delim: byte, answer: (nat, nat) -> int)
    requires Answers(answer) && InFull(answer) && GreedySplit(text, delim).ok && text != []
    ensures var o, pieces := WriteOut(text, delim, answer, 0), GreedySplit(text, delim).pieces;
            && pieces != [] && o.lines == AsLines(pieces) && o.after == Joined(o.lines)
            && o.left == |pieces[|pieces| - 1]|
  {
    FullWrites(text, delim, answer, 0);
    NothingGarbled(text, delim, answer, 0);
    LeftBehind(text, delim, answer, 0);
    hide *;
  }

  lemma NothingWritten(text: seq<byte>, delim: byte)
    ensures Joined([]) == [] && Near([], text[..0], delim)
  {
  }

  lemma TakenFront(text: seq<byte>, delim: byte, answer: (nat, nat) -> int)
    requires Answers(answer) && text != []
    ensures var o := WriteOut(text, delim, answer, 0);
            var taken := |Joined(o.lines)|;
            && taken <= |text| && Near(Joined(o.lines), text[..taken], delim) && (o.len > 0 <==> taken == |text|)
  {
    NothingGarbled(text, delim, answer, 0);
    hide WriteOut;
  }

  lemma FullCutting(text: seq<byte>, delim: byte, answer: (nat, nat) -> int)
    requires Answers(answer) && InFull(answer)
    ensures var o := WriteOut(text, delim, answer, 0);
            && (o.len > 0 <==> exists pieces :: CutsInto(text, pieces, delim))
            && (o.len > 0 ==> exists pieces :: CutsInto(text, pieces, delim) && o.lines == AsLines(pieces))
  {
    FullWrites(text, delim, answer, 0);
    SplitExact(text, delim);
    hide WriteOut, CutsInto;
    if GreedySplit(text, delim).ok {
      SplitIsCutting(text, delim);
    }
  }

  lemma {:induction false} JoinedSnoc(pieces: seq<seq<byte>>, p: seq<byte>)
    ensures Joined(pieces + [p]) == Joined(pieces) + p
  {
    if pieces != [] {
      JoinedSnoc(pieces[1..], p);
      assert (pieces + [p])[1..] == pieces[1..] + [p];
    } else {
      assert Joined([p]) == p + Joined([]);
    }
  }
}
