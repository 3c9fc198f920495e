/**
 * library/readproc.c: file2strvec, which reads a NUL-separated file such as cmdline or
 * environ into one block holding the strings and the pointers to them.
 *
 * read(2) is a parameter: the chunks it delivers, and whether it ends in an error. Pointers
 * are offsets into the block; ints are assumed to be 32 and pointers 64 bits wide.
 */
module Readproc {
  import opened Bytes
  import opened Options

  /** sizeof buf - 1 */
  const CHUNK: nat := 2047
  const PTR: nat := 8
  /** INT_MAX / (ARG_LEN + sizeof(char *)) * ARG_LEN */
  const TOT_CAP: int := INT_MAX / 72 * 64

  // ----- Reference: the strings of a text ---------------------------------------------------

  predicate IsEnd(b: byte) {
    b == NUL || b == NEWLINE
  }

  /** A text with its missing final NUL. */
  function Terminated(text: seq<byte>): (r: seq<byte>)
    ensures text != [] ==> r != [] && r[|r| - 1] == NUL
  {
    if text == [] || text[|text| - 1] == NUL then text else text + [NUL]
  }

  /** The pieces a text is cut into at every NUL or newline, and the unfinished piece. */
  datatype Cut = Cut(pieces: seq<seq<byte>>, rest: seq<byte>)

  function CutUp(text: seq<byte>): Cut {
    if text == [] then Cut([], [])
    else
      var n := |text| - 1;
      var c := CutUp(text[..n]);
      if IsEnd(text[n]) then Cut(c.pieces + [c.rest], []) else Cut(c.pieces, c.rest + [text[n]])
  }

  /** The strings of a file. */
  function Strings(text: seq<byte>): seq<seq<byte>> {
    CutUp(Terminated(text)).pieces
  }

  /** Pieces put together again, each ended by what ended it: the text itself. */
  lemma {:induction false} NothingLost(text: seq<byte>) returns (ends: seq<byte>)
    ensures |ends| == |CutUp(text).pieces| && forall i :: 0 <= i < |ends| ==> IsEnd(ends[i])
    ensures text == Restored(CutUp(text).pieces, ends) + CutUp(text).rest
  {
    if text == [] {
      ends := [];
    } else {
      var n := |text| - 1;
      var before := CutUp(text[..n]);
      var e := NothingLost(text[..n]);
      if IsEnd(text[n]) {
        ends := e + [text[n]];
        assert (before.pieces + [before.rest])[..|e|] == before.pieces && ends[..|e|] == e;
        assert Restored(before.pieces + [before.rest], ends) == Restored(before.pieces, e) + before.rest + [text[n]];
      } else {
        ends := e;
        assert text == text[..n] + [text[n]];
      }
    }
  }

  function Restored(pieces: seq<seq<byte>>, ends: seq<byte>): seq<byte>
    requires |pieces| == |ends|
  {
    if pieces == [] then []
    else
      var n := |pieces| - 1;
      Restored(pieces[..n], ends[..n]) + pieces[n] + [ends[n]]
  }

  /** A string that holds neither a NUL nor a newline. */
  ghost predicate Clean(s: seq<byte>) {
    NUL !in s && NEWLINE !in s
  }

  /** Any strings, what ends each of them, and what comes behind the last end. */
  ghost predicate Parts(strings: seq<seq<byte>>, ends: seq<byte>, rest: seq<byte>) {
    && |strings| == |ends| && Clean(rest)
    && (forall i :: 0 <= i < |strings| ==> Clean(strings[i]))
    && (forall i :: 0 <= i < |ends| ==> ends[i] == NUL || ends[i] == NEWLINE)
  }

  /**
   * The strings that a text of such parts holds: behind the last end there is one more,
   * unless nothing is there and that end is a NUL.
   */
  function Held(strings: seq<seq<byte>>, ends: seq<byte>, rest: seq<byte>): seq<seq<byte>> {
    if rest == [] && (ends == [] || ends[|ends| - 1] == NUL) then strings else strings + [rest]
  }

  /** Cutting up gives back the parts. */
  lemma {:induction false} CutUpParts(strings: seq<seq<byte>>, ends: seq<byte>, rest: seq<byte>)
    requires Parts(strings, ends, rest)
    ensures CutUp(Restored(strings, ends) + rest) == Cut(strings, rest)
    decreases |strings|, |rest|
  {
    hide CutUp, Restored, Parts;
    PartsFront(strings, ends, rest);
    if rest != [] {
      var m := |rest| - 1;
      CutUpParts(strings, ends, rest[..m]);
      PartsMore(strings, ends, rest[..m], rest[m]);
    } else if strings != [] {
      var n := |strings| - 1;
      CutUpParts(strings[..n], ends[..n], strings[n]);
      PartsEnded(strings[..n], ends[..n], strings[n], ends[n]);
    } else {
      NoParts();
    }
  }

  lemma NoParts()
    ensures CutUp(Restored([], []) + []) == Cut([], [])
  {
  }

  lemma PartsFront(strings: seq<seq<byte>>, ends: seq<byte>, rest: seq<byte>)
    requires Parts(strings, ends, rest)
    ensures |strings| == |ends| && (strings == [] ==> ends == [])
    ensures rest != [] ==>
              var m := |rest| - 1;
              Parts(strings, ends, rest[..m]) && !IsEnd(rest[m]) && rest[..m] + [rest[m]] == rest
    ensures strings != [] ==>
              var n := |strings| - 1;
              && Parts(strings[..n], ends[..n], strings[n]) && IsEnd(ends[n])
              && strings[..n] + [strings[n]] == strings && ends[..n] + [ends[n]] == ends
  {
  }

  lemma PartsMore(strings: seq<seq<byte>>, ends: seq<byte>, rest: seq<byte>, b: byte)
    requires |strings| == |ends| && !IsEnd(b) && CutUp(Restored(strings, ends) + rest) == Cut(strings, rest)
    ensures CutUp(Restored(strings, ends) + (rest + [b])) == Cut(strings, rest + [b])
  {
    hide CutUp, Restored;
    CutUpSnoc(Restored(strings, ends) + rest, b);
    assert Restored(strings, ends) + (rest + [b]) == Restored(strings, ends) + rest + [b];
  }

  lemma PartsEnded(strings: seq<seq<byte>>, ends: seq<byte>, s: seq<byte>, e: byte)
    requires |strings| == |ends| && IsEnd(e) && CutUp(Restored(strings, ends) + s) == Cut(strings, s)
    ensures CutUp(Restored(strings + [s], ends + [e]) + []) == Cut(strings + [s], [])
  {
    hide CutUp;
    CutUpSnoc(Restored(strings, ends) + s, e);
    assert (strings + [s])[..|strings|] == strings && (ends + [e])[..|ends|] == ends;
    assert Restored(strings + [s], ends + [e]) + [] == Restored(strings, ends) + s + [e];
  }

  /** One more byte. */
  lemma CutUpSnoc(text: seq<byte>, b: byte)
    ensures var c := CutUp(text);
            CutUp(text + [b]) == if IsEnd(b) then Cut(c.pieces + [c.rest], []) else Cut(c.pieces, c.rest + [b])
  {
    assert (text + [b])[..|text|] == text;
  }

  /** The strings of any text, in terms of its parts alone. */
  lemma StringsAre(strings: seq<seq<byte>>, ends: seq<byte>, rest: seq<byte>)
    requires Parts(strings, ends, rest)
    ensures Strings(Restored(strings, ends) + rest) == Held(strings, ends, rest)
    ensures var text := Restored(strings, ends) + rest;
            |Terminated(text)| == |text| + |Held(strings, ends, rest)| - |strings|
  {
    var text := Restored(strings, ends) + rest;
    LastByte(strings, ends, rest);
    hide CutUp;
    if Held(strings, ends, rest) == strings {
      CutUpParts(strings, ends, rest);
    } else {
      var more, closed := strings + [rest], ends + [NUL];
      assert more[..|strings|] == strings && closed[..|ends|] == ends;
      assert Restored(more, closed) == text + [NUL];
      assert Restored(more, closed) + [] == text + [NUL];
      CutUpParts(more, closed, []);
    }
  }

  /**
   * Strings that are each ended by one and the same byte: exactly those strings if that is a
   * NUL, and an empty one more if it is a newline. Without its last byte the text yields exactly
   * those strings, whichever it is, provided that the last string is not empty.
   */
  lemma AllEndedBy(strings: seq<seq<byte>>, end: byte)
    requires (end == NUL || end == NEWLINE) && strings != []
    requires forall i :: 0 <= i < |strings| ==> Clean(strings[i])
    ensures Strings(Restored(strings, Repeated(end, |strings|))) == if end == NUL then strings else strings + [[]]
    ensures var n := |strings| - 1;
            strings[n] != [] ==> Strings(Restored(strings[..n], Repeated(end, n)) + strings[n]) == strings
  {
    hide Strings, Terminated, Restored, CutUp;
    var n := |strings| - 1;
    PartsRepeated(strings, end, []);
    StringsAre(strings, Repeated(end, n + 1), []);
    NothingBehind(Restored(strings, Repeated(end, n + 1)));
    PartsRepeated(strings[..n], end, strings[n]);
    StringsAre(strings[..n], Repeated(end, n), strings[n]);
    FrontAndLast(strings);
  }

  function Repeated(b: byte, n: nat): (r: seq<byte>)
    ensures |r| == n && forall i :: 0 <= i < n ==> r[i] == b
  {
    seq(n, _ => b)
  }

  lemma PartsRepeated(strings: seq<seq<byte>>, end: byte, rest: seq<byte>)
    requires (end == NUL || end == NEWLINE) && Clean(rest)
    requires forall i :: 0 <= i < |strings| ==> Clean(strings[i])
    ensures Parts(strings, Repeated(end, |strings|), rest)
  {
  }

  lemma NothingBehind(text: seq<byte>)
    ensures text + [] == text
  {
  }

  lemma FrontAndLast(strings: seq<seq<byte>>)
    requires strings != []
    ensures strings[..|strings| - 1] + [strings[|strings| - 1]] == strings
  {
  }

  lemma LastByte(strings: seq<seq<byte>>, ends: seq<byte>, rest: seq<byte>)
    requires Parts(strings, ends, rest)
    ensures var text := Restored(strings, ends) + rest;
            text == [] || text[|text| - 1] == NUL <==> Held(strings, ends, rest) == strings
  {
    var text := Restored(strings, ends) + rest;
    if rest != [] {
      assert text[|text| - 1] == rest[|rest| - 1];
      assert |strings + [rest]| != |strings|;
    } else if strings != [] {
      assert text == Restored(strings, ends);
      assert text[|text| - 1] == ends[|ends| - 1];
      assert |strings + [rest]| != |strings|;
    }
  }

  /** No piece contains an end. */
  lemma {:induction false} PiecesAreClean(text: seq<byte>)
    ensures forall i, k :: 0 <= i < |CutUp(text).pieces| && 0 <= k < |CutUp(text).pieces[i]| ==>
              !IsEnd(CutUp(text).pieces[i][k])
    ensures forall k :: 0 <= k < |CutUp(text).rest| ==> !IsEnd(CutUp(text).rest[k])
  {
    if text != [] {
      PiecesAreClean(text[..|text| - 1]);
    }
  }

  /** A terminated text has no unfinished piece, and only gains pieces when it gets longer. */
  lemma {:induction false} CutPrefix(text: seq<byte>, p: nat)
    requires p <= |text|
    ensures CutUp(text[..p]).pieces <= CutUp(text).pieces
    decreases |text|
  {
    if p == |text| {
      assert text[..p] == text;
    } else {
      CutPrefix(text[..|text| - 1], p);
      assert text[..|text| - 1][..p] == text[..p];
    }
  }

  // ----- Reading -----------------------------------------------------------------------------------

  /** What the read loop gathers: up to the first short chunk, or to the size cap. */
  function Gather(done: seq<byte>, chunks: seq<seq<byte>>): seq<byte>
    decreases |chunks|
  {
    if chunks == [] then done
    else
      var chunk := chunks[0];
      if chunk == [] && done == [] then []
      else if |done| >= TOT_CAP - |chunk| then done
      else if |chunk| < CHUNK then done + chunk
      else Gather(done + chunk, chunks[1..])
  }

  /** A file delivered in full chunks up to a final short one. */
  function Chunked(text: seq<byte>): (r: seq<seq<byte>>)
    ensures forall i :: 0 <= i < |r| ==> |r[i]| <= CHUNK
    decreases |text|
  {
    if |text| < CHUNK then [text] else [text[..CHUNK]] + Chunked(text[CHUNK..])
  }

  /** Below the cap, such a file is gathered whole. */
  lemma {:induction false} GatherChunked(done: seq<byte>, text: seq<byte>)
    requires |done| + |text| < TOT_CAP
    ensures Gather(done, Chunked(text)) == done + text
    decreases |text|
  {
    if |text| >= CHUNK {
      var chunk, rest := text[..CHUNK], text[CHUNK..];
      GatherChunked(done + chunk, rest);
      assert Chunked(text)[1..] == Chunked(rest);
      assert done + chunk + rest == done + text by { assert chunk + rest == text; }
    } else if text == [] && done == [] {
      assert done + text == [];
    }
  }

  function Flat(chunks: seq<seq<byte>>): seq<byte> {
    if chunks == [] then [] else chunks[0] + Flat(chunks[1..])
  }

  /**
   * What is gathered from any chunks: the first `m` of them, all full but the last one perhaps;
   * and `m` is all there are, or the last one was short, or the next one reaches the cap.
   */
  lemma {:induction false} GatherExact(done: seq<byte>, chunks: seq<seq<byte>>) returns (m: nat)
    ensures m <= |chunks| && Gather(done, chunks) == done + Flat(chunks[..m])
    ensures forall i :: 0 <= i < m - 1 ==> |chunks[i]| >= CHUNK
    ensures m < |chunks| ==>
              || (m > 0 && |chunks[m - 1]| < CHUNK)
              || |Gather(done, chunks)| >= TOT_CAP - |chunks[m]|
              || (m == 0 && done == chunks[0] == [])
    ensures m > 0 ==> |Gather(done, chunks)| < TOT_CAP
    decreases |chunks|
  {
    hide Gather, Fails;
    m := 0;
    GatherStep(done, chunks, false);
    FlatFirst(done, chunks);
    if chunks != [] && !(chunks[0] == [] && done == []) && |done| < TOT_CAP - |chunks[0]| {
      m := 1;
      if |chunks[0]| >= CHUNK {
        var k := GatherExact(done + chunks[0], chunks[1..]);
        m := k + 1;
        FlatNext(done, chunks, k);
      }
    }
  }

  lemma FlatFirst(done: seq<byte>, chunks: seq<seq<byte>>)
    ensures done + Flat(chunks[..0]) == done
    ensures chunks != [] ==> done + Flat(chunks[..1]) == done + chunks[0]
  {
    if chunks != [] {
      assert chunks[..1][1..] == [];
    }
  }

  lemma FlatNext(done: seq<byte>, chunks: seq<seq<byte>>, k: nat)
    requires k < |chunks|
    ensures done + Flat(chunks[..k + 1]) == done + chunks[0] + Flat(chunks[1..][..k])
    ensures forall i :: 0 <= i < k ==> chunks[1..][i] == chunks[i + 1]
    ensures k + 1 < |chunks| ==> chunks[1..][k] == chunks[k + 1]
  {
    assert chunks[..k + 1][1..] == chunks[1..][..k];
  }

  /** Reading fails exactly when read reports an error after nothing but full chunks below the cap. */
  lemma {:induction false} FailsExact(done: seq<byte>, chunks: seq<seq<byte>>, error: bool)
    requires |done| < TOT_CAP
    ensures Fails(done, chunks, error) <==>
              error && (forall i :: 0 <= i < |chunks| ==> |chunks[i]| == CHUNK)
              && |done| + |chunks| * CHUNK < TOT_CAP
    decreases |chunks|
  {
    if chunks != [] {
      var tail := chunks[1..];
      if |chunks[0]| == CHUNK && |done| + CHUNK < TOT_CAP {
        FailsExact(done + chunks[0], tail, error);
        assert (forall i :: 0 <= i < |chunks| ==> |chunks[i]| == CHUNK) <==>
               (forall i :: 0 <= i < |tail| ==> |tail[i]| == CHUNK) by {
          assert forall i :: 0 <= i < |tail| ==> tail[i] == chunks[i + 1];
          assert forall i :: 1 <= i < |chunks| ==> chunks[i] == tail[i - 1];
        }
      }
    }
  }

  /** Does the loop end because of the error read reports after the chunks. */
  predicate Fails(done: seq<byte>, chunks: seq<seq<byte>>, error: bool)
    decreases |chunks|
  {
    if chunks == [] then error
    else
      var chunk := chunks[0];
      !(chunk == [] && done == []) && !(|done| >= TOT_CAP - |chunk|) && |chunk| == CHUNK
      && Fails(done + chunk, chunks[1..], error)
  }

  /** realloc and memcpy: the block with `n` bytes of `buf` added. */
  method Append(rbuf: array<byte>, buf: array<byte>, n: nat) returns (r: array<byte>)
    requires n <= buf.Length
    ensures fresh(r) && r[..] == rbuf[..] + buf[..n]
  {
    r := new byte[rbuf.Length + n];
    forall i | 0 <= i < rbuf.Length {
      r[i] := rbuf[i];
    }
    forall i | 0 <= i < n {
      r[rbuf.Length + i] := buf[i];
    }
  }

  /** The read loop: the block read, with its final NUL; None for nothing read or an error. */
  method ReadWhole(chunks: seq<seq<byte>>, error: bool) returns (r: Option<array<byte>>)
    requires forall i :: 0 <= i < |chunks| ==> |chunks[i]| <= CHUNK
    ensures r.None? <==> Fails([], chunks, error) || Gather([], chunks) == []
    ensures r.Some? ==> fresh(r.value) && r.value[..] == Terminated(Gather([], chunks))
  {
    var buf := new byte[CHUNK + 1];
    var rbuf := new byte[0];
    var k := 0;
    assert chunks[0..] == chunks && rbuf[..] == [];
    hide *;
    while true
      invariant 0 <= k <= |chunks|
      invariant fresh(rbuf) && fresh(buf) && buf != rbuf && buf.Length == CHUNK + 1
      invariant Gather([], chunks) == Gather(rbuf[..], chunks[k..])
      invariant Fails([], chunks, error) == Fails(rbuf[..], chunks[k..], error)
      decreases |chunks| - k
    {
      GatherStep(rbuf[..], chunks[k..], error);
      var n, endOfFile := 0, false;
      if k < |chunks| {
        n := FillBuffer(buf, chunks[k]);
        assert chunks[k..][0] == chunks[k] && chunks[k..][1..] == chunks[k + 1..];
      } else if error {
        return None;
      }
      if n < CHUNK {
        endOfFile := true;
      }
      if n <= 0 && rbuf.Length <= 0 {
        return None;
      }
      if rbuf.Length >= TOT_CAP - n {
        endOfFile := true;
        n := 0;
      }
      if endOfFile {
        EmptyPrefix(rbuf[..], buf[..n]);
        rbuf := Finish(rbuf, buf, n);
        return Some(rbuf);
      }
      rbuf := Append(rbuf, buf, n);
      k := k + 1;
    }
  }

  /** read(2) */
  method FillBuffer(buf: array<byte>, chunk: seq<byte>) returns (n: nat)
    requires |chunk| <= buf.Length
    modifies buf
    ensures n == |chunk| && buf[..n] == chunk
  {
    n := |chunk|;
    forall i | 0 <= i < n {
      buf[i] := chunk[i];
    }
  }

  lemma EmptyPrefix(a: seq<byte>, b: seq<byte>)
    ensures a + [] == a && (b == [] ==> a + b == a) && (a + b == [] <==> a == [] && b == [])
  {
  }

  /** What the next chunk means for the outcome. */
  lemma GatherStep(done: seq<byte>, chunks: seq<seq<byte>>, error: bool)
    ensures chunks == [] ==> Gather(done, chunks) == done && Fails(done, chunks, error) == error
    ensures chunks != [] ==>
              var chunk := chunks[0];
              if chunk == [] && done == [] then Gather(done, chunks) == [] && !Fails(done, chunks, error)
              else if |done| >= TOT_CAP - |chunk| then Gather(done, chunks) == done && !Fails(done, chunks, error)
              else if |chunk| < CHUNK then Gather(done, chunks) == done + chunk && !Fails(done, chunks, error)
              else
                && Gather(done, chunks) == Gather(done + chunk, chunks[1..])
                && (|chunk| == CHUNK ==> Fails(done, chunks, error) == Fails(done + chunk, chunks[1..], error))
  {
  }

  /** The last turn of the loop: the missing NUL, and the last copy unless there is nothing to copy. */
  method Finish(rbuf0: array<byte>, buf: array<byte>, n0: nat) returns (rbuf: array<byte>)
    requires rbuf0 != buf && n0 < buf.Length && rbuf0.Length + n0 > 0
    modifies buf
    ensures rbuf == rbuf0 || fresh(rbuf)
    ensures rbuf[..] == Terminated(rbuf0[..] + old(buf[..n0]))
  {
    var n := AddNul(rbuf0, buf, n0);
    rbuf := rbuf0;
    if n > 0 {
      rbuf := Append(rbuf, buf, n);
    } else {
      assert rbuf0[..] + buf[..n] == rbuf0[..];
    }
  }

  /** The test for a missing final NUL, and its addition to the chunk. */
  method AddNul(rbuf: array<byte>, buf: array<byte>, n0: nat) returns (n: nat)
    requires rbuf != buf && n0 < buf.Length && rbuf.Length + n0 > 0
    modifies buf
    ensures n <= buf.Length && rbuf[..] + buf[..n] == Terminated(rbuf[..] + old(buf[..n0]))
  {
    n := n0;
    ghost var text := rbuf[..] + buf[..n];
    if (n > 0 && buf[n - 1] != NUL) || (n <= 0 && rbuf[rbuf.Length - 1] != NUL) {
      buf[n] := NUL;
      n := n + 1;
      assert rbuf[..] + buf[..n] == text + [NUL];
    }
  }

  // ----- The pointers --------------------------------------------------------------------------------

  /** `(sizeof(char *) - 1) - ((tot + sizeof(char *) - 1) & (sizeof(char *) - 1))` */
  function Align(tot: nat): (a: nat)
    ensures a < PTR && (tot + a) % PTR == 0
  {
    PTR - 1 - (tot + PTR - 1) % PTR
  }

  /** How many pointers, without the NULL, may be counted before an int would overflow. */
  predicate RoomFor(k: nat, tot: nat) {
    PTR * k < INT_MAX - (tot + PTR + Align(tot))
  }

  /** That is: with them and the NULL, the block stays below INT_MAX. */
  lemma RoomIs(k: nat, tot: nat)
    ensures RoomFor(k, tot) <==> tot + Align(tot) + PTR * (k + 1) < INT_MAX
  {
  }

  /** The block: the bytes, with the pointer table at `tot + align`. */
  datatype Vector = Vector(block: array<byte>, align: nat, slots: nat, ptrs: seq<nat>)

  /** A C string of the block: it starts at `at` and ends at its first NUL. */
  ghost predicate StringAt(block: seq<byte>, at: nat, s: seq<byte>) {
    && at + |s| < |block| && block[at..at + |s|] == s && NoNul(s) && block[at + |s|] == NUL
  }

  /** Newlines become NULs. */
  function Translated(text: seq<byte>): (r: seq<byte>)
    ensures |r| == |text| && forall i :: 0 <= i < |text| ==> r[i] == if text[i] == NEWLINE then NUL else text[i]
  {
    seq(|text|, i requires 0 <= i < |text| => if text[i] == NEWLINE then NUL else text[i])
  }

  /**
   * The first loop: count an end for each pointer and turn newlines into NULs, until an int
   * could overflow. `stop` is where that was, `tot` if it was not.
   */
  method CountEnds(rbuf: array<byte>) returns (c: int, ghost stop: nat)
    modifies rbuf
    ensures var text := old(rbuf[..]);
            && stop <= |text| && rbuf[..stop] == Translated(text[..stop]) && rbuf[stop..] == text[stop..]
            && c == PTR * (|CutUp(text[..stop]).pieces| + 1)
            && (stop < |text| ==> IsEnd(text[stop]) && !RoomFor(|CutUp(text[..stop]).pieces| + 1, |text|))
            && (forall k :: 0 < k <= |CutUp(text[..stop]).pieces| ==> RoomFor(k, |text|))
  {
    ghost var text := rbuf[..];
    var tot := rbuf.Length;
    var align := Align(tot);
    c := PTR;
    var p := 0;
    while p < tot
      invariant 0 <= p <= tot && |text| == tot == rbuf.Length
      invariant forall k :: 0 <= k < p ==> rbuf[k] == if text[k] == NEWLINE then NUL else text[k]
      invariant forall k :: p <= k < tot ==> rbuf[k] == text[k]
      invariant c == PTR * (|CutUp(text[..p]).pieces| + 1)
      invariant forall k :: 0 < k <= |CutUp(text[..p]).pieces| ==> RoomFor(k, tot)
    {
      assert text[..p + 1][..p] == text[..p];
      if rbuf[p] == NUL || rbuf[p] == NEWLINE {
        if c >= INT_MAX - (tot + PTR + align) {
          break;
        }
        c := c + PTR;
      }
      if rbuf[p] == NEWLINE {
        rbuf[p] := NUL;
      }
      p := p + 1;
    }
    stop := p;
    assert text[..stop] + text[stop..] == text;
  }

  /** The second loop: point at every string that was counted. */
  method PointAtStrings(rbuf: array<byte>, c0: int, ghost text: seq<byte>, ghost stop: nat)
    returns (ptrs: seq<nat>)
    requires rbuf.Length == |text| && stop <= |text|
    requires rbuf[..stop] == Translated(text[..stop]) && rbuf[stop..] == text[stop..]
    requires c0 == PTR * (|CutUp(text[..stop]).pieces| + 1)
    ensures |ptrs| == |CutUp(text[..stop]).pieces|
    ensures forall i :: 0 <= i < |ptrs| ==> StringAt(rbuf[..], ptrs[i], CutUp(text[..stop]).pieces[i])
  {
    var c := c0;
    ptrs := [];
    var strp, p := 0, 0;
    ghost var all := CutUp(text[..stop]).pieces;
    while p < rbuf.Length
      invariant 0 <= p <= rbuf.Length
      invariant c == PTR * (|all| + 1 - |ptrs|) && |ptrs| <= |all|
      invariant p <= stop ==> Pointed(rbuf[..], text, p, ptrs, strp)
      invariant p >= stop ==> |ptrs| == |all|
      invariant forall i :: 0 <= i < |ptrs| ==> StringAt(rbuf[..], ptrs[i], all[i])
    {
      if p < stop {
        PointedNext(rbuf[..], text, stop, p, ptrs, strp);
      }
      if rbuf[p] == NUL {
        if c < 2 * PTR {
          break;
        }
        c := c - PTR;
        ptrs := ptrs + [strp];
        strp := p + 1;
      }
      p := p + 1;
      if p == stop {
        assert text[..p] == text[..stop];
      }
    }
  }

  /** After `p` bytes: a pointer for each piece, and `strp` at the start of the unfinished one. */
  ghost predicate Pointed(block: seq<byte>, text: seq<byte>, p: nat, ptrs: seq<nat>, strp: nat) {
    p <= |text| == |block| &&
    var c := CutUp(text[..p]);
    && |ptrs| == |c.pieces| && strp + |c.rest| == p && block[strp..p] == c.rest
  }

  lemma PointedNext(block: seq<byte>, text: seq<byte>, stop: nat, p: nat, ptrs: seq<nat>, strp: nat)
    requires Pointed(block, text, p, ptrs, strp) && p < stop <= |text|
    requires block[..stop] == Translated(text[..stop])
    ensures var all := CutUp(text[..stop]).pieces;
            if block[p] == NUL then
              && |ptrs| < |all| && StringAt(block, strp, all[|ptrs|])
              && Pointed(block, text, p + 1, ptrs + [strp], p + 1)
            else Pointed(block, text, p + 1, ptrs, strp)
  {
    assert text[..p + 1][..p] == text[..p];
    assert block[p] == block[..stop][p] == Translated(text[..stop])[p];
    assert text[..stop][p] == text[p];
    PiecesAreClean(text[..p]);
    var c := CutUp(text[..p]);
    if block[p] == NUL {
      CutPrefix(text[..stop], p + 1);
      assert text[..stop][..p + 1] == text[..p + 1];
      assert CutUp(text[..stop]).pieces[|ptrs|] == c.rest;
    }
  }

  /** file2strvec */
  method File2StrVec(chunks: seq<seq<byte>>, error: bool) returns (r: Option<Vector>)
    requires forall i :: 0 <= i < |chunks| ==> |chunks[i]| <= CHUNK
    ensures r.None? <==> Fails([], chunks, error) || Gather([], chunks) == []
    ensures r.Some? ==>
              var v := r.value;
              var all := Strings(Gather([], chunks));
              && v.block.Length == |Terminated(Gather([], chunks))|
              && (v.block.Length + v.align) % PTR == 0
              && v.slots == |v.ptrs| + 1
              && |v.ptrs| <= |all|
              && (|v.ptrs| < |all| ==> !RoomFor(|v.ptrs| + 1, v.block.Length))
              && v.align < PTR
              && (v.ptrs != [] ==> v.block.Length + v.align + PTR * v.slots < INT_MAX)
              && (|v.ptrs| < |all| ==> v.block.Length + v.align + PTR * (v.slots + 1) >= INT_MAX)
              && forall i :: 0 <= i < |v.ptrs| ==> StringAt(v.block[..], v.ptrs[i], all[i])
  {
    var whole := ReadWhole(chunks, error);
    if whole.None? {
      return None;
    }
    hide CutUp, StringAt, RoomFor, Gather, Fails;
    var rbuf := whole.value;
    ghost var text := rbuf[..];
    rbuf[rbuf.Length - 1] := NUL;
    assert rbuf[..] == text;
    var v := MakeTable(rbuf);
    r := Some(v);
  }

  /** The rest of file2strvec, on the bytes read: the pointer table behind them. */
  method MakeTable(rbuf: array<byte>) returns (v: Vector)
    modifies rbuf
    ensures var all := CutUp(old(rbuf[..])).pieces;
            && v.block == rbuf && (rbuf.Length + v.align) % PTR == 0
            && v.slots == |v.ptrs| + 1 && |v.ptrs| <= |all|
            && (|v.ptrs| < |all| ==> !RoomFor(|v.ptrs| + 1, rbuf.Length))
            && v.align < PTR
            && (v.ptrs != [] ==> rbuf.Length + v.align + PTR * v.slots < INT_MAX)
            && (|v.ptrs| < |all| ==> rbuf.Length + v.align + PTR * (v.slots + 1) >= INT_MAX)
            && forall i :: 0 <= i < |v.ptrs| ==> StringAt(rbuf[..], v.ptrs[i], all[i])
  {
    ghost var text := rbuf[..];
    var c;
    ghost var stop;
    c, stop := CountEnds(rbuf);
    RoomIs(|CutUp(text[..stop]).pieces|, |text|);
    RoomIs(|CutUp(text[..stop]).pieces| + 1, |text|);
    hide CutUp, StringAt, Translated, RoomFor;
    var ptrs := PointAtStrings(rbuf, c, text, stop);
    CutPrefix(text, stop);
    assert text[..|text|] == text;
    v := Vector(rbuf, Align(rbuf.Length), c / PTR, ptrs);
  }

  /** Below the caps, a file delivered in full chunks yields exactly its strings. */
  method File2StrVecWhole(text: seq<byte>) returns (r: Option<Vector>)
    requires |text| < TOT_CAP
    requires RoomFor(|Strings(text)|, |Terminated(text)|)
    ensures r.None? <==> text == []
    ensures r.Some? ==>
              var v := r.value;
              && |v.ptrs| == |Strings(text)| && v.slots == |v.ptrs| + 1
              && (v.block.Length + v.align) % PTR == 0
              && forall i :: 0 <= i < |v.ptrs| ==> StringAt(v.block[..], v.ptrs[i], Strings(text)[i])
  {
    GatherChunked([], text);
    assert [] + text == text;
    NoError([], Chunked(text));
    assert text == [] || |Terminated(text)| > 0;
    hide Gather, Fails, Chunked, CutUp, Terminated, StringAt;
    r := File2StrVec(Chunked(text), false);
  }

  /**
   * The same in plain terms, for every text: its strings are what stands between its NULs and
   * newlines, and what is left behind the last of them, if anything is or if that is a newline.
   */
  method File2StrVecParts(text: seq<byte>, ghost strings: seq<seq<byte>>, ghost ends: seq<byte>, ghost rest: seq<byte>)
    returns (r: Option<Vector>)
    requires Parts(strings, ends, rest) && text == Restored(strings, ends) + rest && |text| < TOT_CAP
    requires var held := Held(strings, ends, rest);
             RoomFor(|held|, |text| + |held| - |strings|)
    ensures r.None? <==> text == []
    ensures r.Some? ==>
              var v, held := r.value, Held(strings, ends, rest);
              && |v.ptrs| == |held| && v.slots == |held| + 1
              && forall i :: 0 <= i < |held| ==> StringAt(v.block[..], v.ptrs[i], held[i])
  {
    hide Held, Strings, Terminated, Restored, Parts, StringAt, RoomFor, CutUp;
    StringsAre(strings, ends, rest);
    r := File2StrVecWhole(text);
  }

  lemma {:induction false} NoError(done: seq<byte>, chunks: seq<seq<byte>>)
    ensures !Fails(done, chunks, false)
    decreases |chunks|
  {
    if chunks != [] {
      NoError(done + chunks[0], chunks[1..]);
    }
  }
}
