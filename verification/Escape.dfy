/**
 * library/escape.c: the UTF-8 recogniser and the in-place sanitiser.
 *
 * The reference is the abstract encoding of code points of section 3 of RFC 3629
 * (`Encode`), which knows nothing of the byte ranges the C code compares against.
 */
module Escape {
  import opened Bytes

  // ----- Reference: code points and their encoding --------------------------

  /** A Unicode scalar value: what RFC 3629 allows to be encoded. */
  predicate Scalar(cp: int) {
    0 <= cp <= 0x10ffff && !(0xd800 <= cp <= 0xdfff)
  }

  /** The private-use areas the recogniser turns away, as code points. */
  predicate PrivateUse(cp: int) {
    || 0xe000 <= cp <= 0xf8ff
    || 0xf0000 <= cp <= 0xffffd
    || 0x100000 <= cp <= 0x10fffd
  }

  /** C0 controls, DEL and C1 controls. */
  predicate Control(cp: int) {
    cp < 0x20 || 0x7f <= cp <= 0x9f
  }

  predicate Recognised(cp: int) {
    Scalar(cp) && !PrivateUse(cp)
  }

  predicate Printable(cp: int) {
    Recognised(cp) && !Control(cp)
  }

  function Encode(cp: int): (s: seq<byte>)
    requires Scalar(cp)
    ensures 1 <= |s| <= 4
  {
    if cp < 0x80 then [cp]
    else if cp < 0x800 then [0xc0 + cp / 64, 0x80 + cp % 64]
    else if cp < 0x10000 then [0xe0 + cp / 4096, 0x80 + cp / 64 % 64, 0x80 + cp % 64]
    else [0xf0 + cp / 262144, 0x80 + cp / 4096 % 64, 0x80 + cp / 64 % 64, 0x80 + cp % 64]
  }

  ghost predicate AllPrintable(cps: seq<int>) {
    forall i :: 0 <= i < |cps| ==> Printable(cps[i])
  }

  ghost function EncodeAll(cps: seq<int>): seq<byte>
    requires AllPrintable(cps)
  {
    if cps == [] then [] else Encode(cps[0]) + EncodeAll(cps[1..])
  }

  // ----- u8charlen ----------------------------------------------------------

  /** `(b & 0xc0) == 0x80` */
  predicate Continuation(b: byte) {
    b / 64 == 2
  }

  /**
   * The C function on a buffer of exactly `size == |s|` bytes, so that its
   * well-formedness is the claim that no byte past `size` is looked at.
   */
  function U8CharLen(s: seq<byte>): int {
    if |s| == 0 then 0
    else if s[0] <= 0x7f then 1
    else if |s| >= 2 && Continuation(s[1]) then
      var a: int := s[0];
      var b: int := s[1];
      if 0xc2 <= a <= 0xdf then 2
      else if |s| >= 3 && Continuation(s[2]) then
        var c: int := s[2];
        var p := a * 0x10000 + b * 0x100 + c;
        var x := a * 64 + b % 64;
        if 0xee8080 <= p <= 0xefa3bf then -1
        else if 0x3820 <= x <= 0x3b5f || 0x3b80 <= x <= 0x3bff then 3
        else if |s| >= 4 && Continuation(s[3]) then
          var y := a * 0x1000000 + b * 0x10000 + c * 0x100 + s[3];
          if 0xf3b08080 <= y <= 0xf3bfbfbd then -1
          else if 0xf4808080 <= y <= 0xf48fbfbd then -1
          else if 0x3c10 <= x <= 0x3d0f then 4
          else -1
        else -1
      else -1
    else -1
  }

  // ----- Soundness and completeness against the code-point encoding ----------

  /** A four-digit number in base 64 has those four digits. */
  lemma Base64Digits(a: int, b: int, c: int, d: int)
    requires 0 <= b < 64 && 0 <= c < 64 && 0 <= d < 64
    ensures var v := a * 262144 + b * 4096 + c * 64 + d;
            && v / 262144 == a && v / 4096 % 64 == b && v / 64 % 64 == c && v % 64 == d
            && v / 4096 == a * 64 + b && v / 64 == (a * 64 + b) * 64 + c
  {
    var v := a * 262144 + b * 4096 + c * 64 + d;
    assert v / 64 == (a * 64 + b) * 64 + c && v % 64 == d;
    assert v / 4096 == v / 64 / 64 == a * 64 + b;
  }

  lemma AcceptedThree(a: int, b: int, c: int) returns (cp: int)
    requires a < 256 && 128 <= b < 192 && 128 <= c < 192
    requires 0x3820 <= a * 64 + b % 64 <= 0x3b5f || 0x3b80 <= a * 64 + b % 64 <= 0x3bff
    requires !(0xee8080 <= a * 0x10000 + b * 0x100 + c <= 0xefa3bf)
    ensures Recognised(cp) && Encode(cp) == [a, b, c]
  {
    assert b % 64 == b - 128 && c % 64 == c - 128;
    cp := (a - 0xe0) * 4096 + (b - 128) * 64 + (c - 128);
    Base64Digits(0, a - 0xe0, b - 128, c - 128);
  }

  lemma AcceptedFour(a: int, b: int, c: int, d: int) returns (cp: int)
    requires a < 256 && 128 <= b < 192 && 128 <= c < 192 && 128 <= d < 192
    requires 0x3c10 <= a * 64 + b % 64 <= 0x3d0f
    requires var y := a * 0x1000000 + b * 0x10000 + c * 0x100 + d;
             !(0xf3b08080 <= y <= 0xf3bfbfbd) && !(0xf4808080 <= y <= 0xf48fbfbd)
    ensures Recognised(cp) && Encode(cp) == [a, b, c, d]
  {
    assert b % 64 == b - 128;
    assert 0xf0 <= a <= 0xf4;
    cp := (a - 0xf0) * 262144 + (b - 128) * 4096 + (c - 128) * 64 + (d - 128);
    FourRecognised(a, b, c, d, cp);
    hide Recognised;
    Base64Digits(a - 0xf0, b - 128, c - 128, d - 128);
  }

  /** The two sums of four bytes rule out exactly the two areas above the basic plane. */
  lemma FourRecognised(a: int, b: int, c: int, d: int, cp: int)
    requires 0xf0 <= a <= 0xf4 && 128 <= b < 192 && 128 <= c < 192 && 128 <= d < 192
    requires 0x3c10 <= a * 64 + b - 128 <= 0x3d0f
    requires var y := a * 0x1000000 + b * 0x10000 + c * 0x100 + d;
             !(0xf3b08080 <= y <= 0xf3bfbfbd) && !(0xf4808080 <= y <= 0xf48fbfbd)
    requires cp == (a - 0xf0) * 262144 + (b - 128) * 4096 + (c - 128) * 64 + (d - 128)
    ensures Recognised(cp) && cp >= 0x10000
  {
  }

  /** Soundness: an accepted prefix is the encoding of a recognised code point. */
  lemma AcceptedIsEncoding(s: seq<byte>) returns (cp: int)
    requires U8CharLen(s) > 0
    ensures Recognised(cp) && Encode(cp) <= s && |Encode(cp)| == U8CharLen(s)
  {
    var n := U8CharLen(s);
    if n == 1 {
      cp := s[0];
    } else if n == 2 {
      cp := (s[0] as int - 0xc0) * 64 + (s[1] as int - 128);
    } else if n == 3 {
      cp := AcceptedThree(s[0], s[1], s[2]);
    } else {
      cp := AcceptedFour(s[0], s[1], s[2], s[3]);
    }
  }

  lemma ThreeIsAccepted(b: int, c: int, d: int, s: seq<byte>)
    requires 0 <= b < 16 && 0 <= c < 64 && 0 <= d < 64 && [0xe0 + b, 128 + c, 128 + d] <= s
    requires 0x800 <= b * 4096 + c * 64 + d && Recognised(b * 4096 + c * 64 + d)
    ensures U8CharLen(s) == 3
  {
    assert s[0] == 0xe0 + b && s[1] == 128 + c && s[2] == 128 + d;
    assert s[1] % 64 == c && Continuation(s[1]) && Continuation(s[2]);
  }

  lemma FourIsAccepted(a: int, b: int, c: int, d: int, s: seq<byte>)
    requires 0 <= a < 5 && 0 <= b < 64 && 0 <= c < 64 && 0 <= d < 64
    requires [0xf0 + a, 128 + b, 128 + c, 128 + d] <= s
    requires 0x10000 <= a * 262144 + b * 4096 + c * 64 + d
    requires Recognised(a * 262144 + b * 4096 + c * 64 + d)
    ensures U8CharLen(s) == 4
  {
    assert s[0] == 0xf0 + a && s[1] == 128 + b && s[2] == 128 + c && s[3] == 128 + d;
    assert s[1] % 64 == b && Continuation(s[1]) && Continuation(s[2]) && Continuation(s[3]);
  }

  /** Completeness: whatever follows, a recognised character is found with its length. */
  lemma EncodingIsAccepted(cp: int, s: seq<byte>)
    requires Recognised(cp) && Encode(cp) <= s
    ensures U8CharLen(s) == |Encode(cp)|
  {
    if 0x800 <= cp {
      var d := cp % 64;
      var c := cp / 64 % 64;
      var b := cp / 64 / 64 % 64;
      var a := cp / 64 / 64 / 64;
      assert cp == a * 262144 + b * 4096 + c * 64 + d;
      Base64Digits(a, b, c, d);
      if cp < 0x10000 {
        ThreeIsAccepted(b, c, d, s);
      } else {
        FourIsAccepted(a, b, c, d, s);
      }
    }
  }

  /**
   * What u8charlen returns, exactly: 0 for an empty buffer, n > 0 when the buffer starts
   * with the n-byte encoding of a recognised code point, -1 when it starts with none.
   */
  lemma U8CharLenExact(s: seq<byte>)
    ensures U8CharLen(s) == 0 <==> |s| == 0
    ensures U8CharLen(s) >= -1
    ensures U8CharLen(s) > 0 <==> exists cp :: Recognised(cp) && Encode(cp) <= s
    ensures forall cp :: Recognised(cp) && Encode(cp) <= s ==> U8CharLen(s) == |Encode(cp)|
  {
    if U8CharLen(s) > 0 {
      var cp := AcceptedIsEncoding(s);
    }
    forall cp | Recognised(cp) && Encode(cp) <= s
      ensures U8CharLen(s) == |Encode(cp)|
    {
      EncodingIsAccepted(cp, s);
    }
  }

  // ----- What the sanitised text is ------------------------------------------

  const QUESTION: byte := 0x3f

  /** The length of the printable character `s` starts with, or 0 when it starts with none. */
  ghost function PrintableLen(s: seq<byte>): nat {
    if exists cp :: Printable(cp) && Encode(cp) <= s then
      var cp :| Printable(cp) && Encode(cp) <= s; |Encode(cp)|
    else 0
  }

  /** Keep every printable character, turn every other byte into a question mark. */
  ghost function Sanitised(s: seq<byte>): (r: seq<byte>)
    ensures |r| == |s|
  {
    if s == [] then []
    else
      var n := PrintableLen(s);
      if 0 < n <= |s| then s[..n] + Sanitised(s[n..]) else [QUESTION] + Sanitised(s[1..])
  }

  /** The test esc_ctl applies after u8charlen: rejected, below SPACE, DEL, or U+0080 to U+009F. */
  predicate Escaped(s: seq<byte>)
    requires |s| > 0
  {
    || U8CharLen(s) < 0
    || s[0] < 0x20
    || s[0] == 0x7f
    || (s[0] == 0xc2 && |s| > 1 && 0x80 <= s[1] <= 0x9f)
  }

  /** esc_ctl's byte tests select exactly the characters that are not printable. */
  lemma EscapedExact(s: seq<byte>)
    requires |s| > 0
    ensures PrintableLen(s) == if Escaped(s) then 0 else U8CharLen(s)
    ensures PrintableLen(s) <= |s|
  {
    U8CharLenExact(s);
    if U8CharLen(s) > 0 {
      var cp := AcceptedIsEncoding(s);
      assert s[0] == Encode(cp)[0];
      if |Encode(cp)| > 1 {
        assert s[1] == Encode(cp)[1];
      }
      assert Escaped(s) <==> Control(cp);
      forall c | Recognised(c) && Encode(c) <= s
        ensures Control(c) <==> Escaped(s)
      {
        assert s[0] == Encode(c)[0];
        if |Encode(c)| > 1 {
          assert s[1] == Encode(c)[1];
        }
      }
    }
  }

  lemma PrintableLenOf(cp: int, s: seq<byte>)
    requires Printable(cp) && Encode(cp) <= s
    ensures PrintableLen(s) == |Encode(cp)|
  {
    U8CharLenExact(s);
  }

  // ----- Theorems about the sanitised text -----------------------------------

  lemma ConcatAssoc(a: seq<byte>, b: seq<byte>, c: seq<byte>)
    ensures (a + b) + c == a + (b + c)
  {
  }

  lemma SanitisedStep(s: seq<byte>)
    requires |s| > 0
    ensures Escaped(s) ==> Sanitised(s) == [QUESTION] + Sanitised(s[1..])
    ensures !Escaped(s) ==>
              var n := U8CharLen(s);
              0 < n <= |s| && Sanitised(s) == s[..n] + Sanitised(s[n..])
  {
    EscapedExact(s);
    U8CharLenExact(s);
  }

  lemma PrintableCharKept(cp: int, t: seq<byte>)
    requires Printable(cp)
    ensures Sanitised(Encode(cp) + t) == Encode(cp) + Sanitised(t)
  {
    var s := Encode(cp) + t;
    PrintableLenOf(cp, s);
    assert s[..|Encode(cp)|] == Encode(cp) && s[|Encode(cp)|..] == t;
  }

  /** Printable text in front survives untouched, whatever follows it. */
  lemma {:induction false} PrintablePrefixKept(cps: seq<int>, t: seq<byte>)
    requires AllPrintable(cps)
    ensures Sanitised(EncodeAll(cps) + t) == EncodeAll(cps) + Sanitised(t)
    decreases |cps|
  {
    hide Sanitised, Encode;
    if cps == [] {
      assert EncodeAll(cps) + t == t && EncodeAll(cps) + Sanitised(t) == Sanitised(t);
    } else {
      var first, rest := Encode(cps[0]), EncodeAll(cps[1..]);
      PrintablePrefixKept(cps[1..], t);
      PrintableCharKept(cps[0], rest + t);
      ConcatAssoc(first, rest, t);
      ConcatAssoc(first, rest, Sanitised(t));
    }
  }

  /** The result is well-formed UTF-8 made of printable characters only. */
  lemma {:induction false} SanitisedIsPrintable(s: seq<byte>) returns (cps: seq<int>)
    ensures AllPrintable(cps) && EncodeAll(cps) == Sanitised(s)
    decreases |s|
  {
    if s == [] {
      cps := [];
    } else {
      EscapedExact(s);
      var n := PrintableLen(s);
      if n > 0 {
        var cp :| Printable(cp) && Encode(cp) <= s;
        PrintableLenOf(cp, s);
        var rest := SanitisedIsPrintable(s[n..]);
        cps := [cp] + rest;
        assert cps[1..] == rest && s[..n] == Encode(cp);
      } else {
        var rest := SanitisedIsPrintable(s[1..]);
        cps := [0x3f] + rest;
        assert cps[1..] == rest && Encode(0x3f) == [QUESTION];
      }
    }
  }

  /** Sanitising changes nothing exactly on printable text. */
  lemma SanitisedFixpoint(s: seq<byte>)
    ensures Sanitised(s) == s <==> exists cps :: AllPrintable(cps) && EncodeAll(cps) == s
  {
    if Sanitised(s) == s {
      var cps := SanitisedIsPrintable(s);
    }
    forall cps | AllPrintable(cps) && EncodeAll(cps) == s
      ensures Sanitised(s) == s
    {
      PrintablePrefixKept(cps, []);
      assert EncodeAll(cps) + [] == s;
    }
  }

  lemma SanitisedIdempotent(s: seq<byte>)
    ensures Sanitised(Sanitised(s)) == Sanitised(s)
  {
    var cps := SanitisedIsPrintable(s);
    SanitisedFixpoint(Sanitised(s));
  }

  /** No byte is invented: each stays where it was or becomes a question mark. */
  lemma SanitisedBytes(s: seq<byte>, i: nat)
    requires i < |s|
    ensures Sanitised(s)[i] == s[i] || Sanitised(s)[i] == QUESTION
    ensures Sanitised(s)[i] >= 0x20 && Sanitised(s)[i] != 0x7f
  {
    CleanByte(s, i);
    hide Sanitised;
  }

  ghost predicate CleanAt(s: seq<byte>, r: seq<byte>, i: nat) {
    i < |s| == |r| && (r[i] == s[i] || r[i] == QUESTION) && r[i] >= 0x20 && r[i] != 0x7f
  }

  lemma {:induction false} CleanByte(s: seq<byte>, i: nat)
    requires i < |s|
    ensures CleanAt(s, Sanitised(s), i)
    decreases |s|
  {
    hide *;
    var n, front := FrontOf(s);
    if i >= n {
      CleanByte(s[n..], i - n);
    }
    CleanStep(s, front, Sanitised(s[n..]), n, i);
  }

  lemma CleanStep(s: seq<byte>, front: seq<byte>, rest: seq<byte>, n: nat, i: nat)
    requires i < |s| && 0 < n <= |s| && |front| == n && |rest| == |s| - n
    requires forall k :: 0 <= k < n ==> CleanAt(s[..n], front, k)
    requires i >= n ==> CleanAt(s[n..], rest, i - n)
    ensures CleanAt(s, front + rest, i)
  {
    if i < n {
      assert CleanAt(s[..n], front, i);
    }
  }

  /** What one step makes of the front of a text: a kept character, or a question mark. */
  lemma FrontOf(s: seq<byte>) returns (n: nat, front: seq<byte>)
    requires |s| > 0
    ensures 0 < n <= |s| && |front| == n && Sanitised(s) == front + Sanitised(s[n..])
    ensures forall k :: 0 <= k < n ==> CleanAt(s[..n], front, k)
  {
    SanitisedStep(s);
    hide Sanitised;
    if Escaped(s) {
      n, front := 1, [QUESTION];
    } else {
      KeptBytes(s);
      hide U8CharLen;
      n, front := U8CharLen(s), s[..U8CharLen(s)];
    }
  }

  /** The bytes of a character that is kept are no control bytes. */
  lemma KeptBytes(s: seq<byte>)
    requires |s| > 0 && !Escaped(s)
    ensures U8CharLen(s) <= |s|
    ensures forall k :: 0 <= k < U8CharLen(s) ==> s[k] >= 0x20 && s[k] != 0x7f
  {
  }

  function Questions(n: nat): (r: seq<byte>)
    ensures |r| == n && forall i :: 0 <= i < n ==> r[i] == QUESTION
  {
    seq(n, i => QUESTION)
  }

  lemma {:induction false} AllContinuations(s: seq<byte>)
    requires forall i :: 0 <= i < |s| ==> Continuation(s[i])
    ensures Sanitised(s) == Questions(|s|)
    decreases |s|
  {
    if s != [] {
      EscapedExact(s);
      AllContinuations(s[1..]);
    }
  }

  lemma NothingSanitised()
    ensures Sanitised([]) == [] == Questions(0)
  {
  }

  /** A character cut short by the buffer's end leaves only question marks. */
  lemma CutCharacter(cp: int, k: nat)
    requires Printable(cp) && k < |Encode(cp)|
    ensures Sanitised(Encode(cp)[..k]) == Questions(k)
  {
    if k > 0 {
      var s := Encode(cp)[..k];
      EscapedExact(s);
      var cont := s[1..];
      forall i | 0 <= i < |cont|
        ensures Continuation(cont[i])
      {
        assert cont[i] == Encode(cp)[i + 1];
      }
      AllContinuations(cont);
      assert s[0] >= 0xc2;
      assert U8CharLen(s) < 0;
    }
  }

  /**
   * Truncation: printable text cut after n bytes comes out as its first whole characters
   * followed by fewer than four question marks.
   */
  lemma {:induction false} TruncatedText(cps: seq<int>, n: nat) returns (whole: nat)
    requires AllPrintable(cps) && n <= |EncodeAll(cps)|
    ensures whole <= |cps| && |EncodeAll(cps[..whole])| <= n < |EncodeAll(cps[..whole])| + 4
    ensures Sanitised(EncodeAll(cps)[..n])
         == EncodeAll(cps[..whole]) + Questions(n - |EncodeAll(cps[..whole])|)
    decreases |cps|
  {
    hide Sanitised, Encode, Questions;
    if cps == [] || n < |Encode(cps[0])| {
      whole := 0;
      assert cps[..0] == [] && EncodeAll(cps[..0]) == [];
      if cps != [] {
        assert EncodeAll(cps)[..n] == Encode(cps[0])[..n];
        CutCharacter(cps[0], n);
      } else {
        NothingSanitised();
      }
      assert [] + Questions(n) == Questions(n);
    } else {
      var first, rest := Encode(cps[0]), EncodeAll(cps[1..]);
      var w := TruncatedText(cps[1..], n - |first|);
      whole := w + 1;
      assert cps[..whole][0] == cps[0] && cps[..whole][1..] == cps[1..][..w];
      assert EncodeAll(cps)[..n] == first + rest[..n - |first|];
      PrintableCharKept(cps[0], rest[..n - |first|]);
      ConcatAssoc(first, EncodeAll(cps[1..][..w]), Questions(n - |first| - |EncodeAll(cps[1..][..w])|));
    }
  }

  // ----- The in-place loops ---------------------------------------------------

  /** The body of esc_ctl's loop: escape or accept what starts at `str`, and say how far to move. */
  method EscOne(buf: array<byte>, str: nat, len: nat) returns (n: int)
    requires str < len <= buf.Length
    modifies buf
    ensures 0 < n <= len - str
    ensures buf[..str] == old(buf[..str]) && buf[str + n..] == old(buf[str + n..])
    ensures Sanitised(old(buf[str..len])) == buf[str..str + n] + Sanitised(old(buf[str + n..len]))
  {
    hide Sanitised;
    ghost var rest := buf[str..len];
    n := U8CharLen(buf[str..len]);
    SanitisedStep(rest);
    if n < 0 || buf[str] < 0x20 || buf[str] == 0x7f
       || (buf[str] == 0xc2 && buf[str + 1] >= 0x80 && buf[str + 1] <= 0x9f) {
      assert Escaped(rest);
      buf[str] := QUESTION;
      n := 1;
      assert buf[str..str + 1] == [QUESTION];
    } else {
      assert !Escaped(rest);
      assert buf[str..str + n] == rest[..n];
    }
    assert rest[n..] == old(buf[str + n..len]);
  }

  lemma SanitisedSoFar(orig: seq<byte>, str: nat, n: nat, done: seq<byte>, piece: seq<byte>)
    requires str + n <= |orig|
    requires Sanitised(orig) == done + Sanitised(orig[str..])
    requires Sanitised(orig[str..]) == piece + Sanitised(orig[str + n..])
    ensures Sanitised(orig) == (done + piece) + Sanitised(orig[str + n..])
  {
    ConcatAssoc(done, piece, Sanitised(orig[str + n..]));
  }

  /** esc_ctl on the first `len` bytes of `buf`. */
  method EscCtl(buf: array<byte>, len: int)
    requires len <= buf.Length
    modifies buf
    ensures len >= 0 ==> buf[..len] == Sanitised(old(buf[..len])) && buf[len..] == old(buf[len..])
    ensures len < 0 ==> buf[..] == old(buf[..])
  {
    hide *;
    if len <= 0 {
      return;
    }
    ghost var orig := buf[..];
    var str, left := 0, len;
    while left != 0   // u8charlen returns 0 for an empty buffer only
      invariant 0 <= str <= len && left == len - str
      invariant buf[str..] == orig[str..]
      invariant Sanitised(orig[..len]) == buf[..str] + Sanitised(orig[..len][str..])
    {
      ghost var done, rest := buf[..str], orig[..len][str..];
      assert buf[str..len] == buf[str..][..left] == orig[str..][..left] == rest;
      var n := EscOne(buf, str, len);
      assert rest[n..] == orig[..len][str + n..];
      SanitisedSoFar(orig[..len], str, n, done, buf[str..str + n]);
      assert buf[..str + n] == done + buf[str..str + n];
      str := str + n;
      left := left - n;
    }
    assert buf[len..] == orig[len..];
  }

  /** esc_all: the branch taken when the locale is not UTF-8; `isprint` is the locale's. */
  method EscAll(buf: array<byte>, ghost n: nat, isprint: byte -> bool)
    requires n < buf.Length && buf[n] == NUL && NoNul(buf[..n])
    modifies buf
    ensures forall i :: 0 <= i < n ==> buf[i] == if isprint(old(buf[i])) then old(buf[i]) else QUESTION
    ensures buf[n..] == old(buf[n..])
  {
    var str := 0;
    while buf[str] != NUL
      invariant str <= n && buf[n..] == old(buf[n..])
      invariant forall i :: str <= i < n ==> buf[i] == old(buf[i]) && buf[i] != NUL
      invariant forall i :: 0 <= i < str ==>
                  buf[i] == if isprint(old(buf[i])) then old(buf[i]) else QUESTION
      decreases n - str
    {
      assert buf[n] == buf[n..][0] == old(buf[n..])[0];
      if !isprint(buf[str]) {
        buf[str] := QUESTION;
      }
      str := str + 1;
    }
    assert str == n by {
      assert buf[n] == buf[n..][0] == old(buf[n..])[0];
    }
  }

  function Min(a: int, b: int): (m: int)
    ensures m <= a && m <= b && (m == a || m == b)
  {
    if a < b then a else b
  }

  /**
   * escape_str with the locale's answer (`utf8`, `isprint`) as parameters. `dst` is the
   * caller's buffer, `src` a C string's contents.
   */
  method EscapeStr(dst: array<byte>, src: seq<byte>, bufsize: int, utf8: bool, isprint: byte -> bool)
    returns (n: int)
    requires bufsize <= dst.Length && NoNul(src)
    modifies dst
    ensures bufsize <= 0 ==> n == 0 && dst[..] == old(dst[..])
    ensures bufsize > 0 && (bufsize >= INT_MAX || |src| > INT_MAX) ==> n == 0 && dst[0] == NUL
    ensures 0 < bufsize < INT_MAX && |src| <= INT_MAX ==>
              && n == Min(|src|, bufsize - 1)
              && dst[n] == NUL
              && dst[n + 1..] == old(dst[n + 1..])
              && (utf8 ==> dst[..n] == Sanitised(src[..n]))
              && (!utf8 ==> forall i :: 0 <= i < n ==>
                    dst[i] == if isprint(src[i]) then src[i] else QUESTION)
  {
    hide Sanitised;
    if bufsize <= 0 {
      return 0;
    }
    dst[0] := NUL;
    if bufsize >= INT_MAX {
      return 0;
    }
    // snprintf reports the untruncated length, or fails when an int cannot hold it
    if |src| > INT_MAX {
      dst[0] := NUL;
      return 0;
    }
    n := Snprintf(dst, src, bufsize);
    if n >= bufsize {
      n := bufsize - 1;
    }
    ghost var behind := dst[n..];
    if utf8 {
      EscCtl(dst, n);
    } else {
      EscAll(dst, n, isprint);
    }
    assert dst[n..] == behind;
    assert behind[0] == dst[n] && behind[1..] == dst[n + 1..];
  }

  /** snprintf: as much of the string as fits, a NUL, and the string's whole length as result. */
  method Snprintf(dst: array<byte>, src: seq<byte>, bufsize: int) returns (n: nat)
    requires 0 < bufsize <= dst.Length
    modifies dst
    ensures n == |src|
    ensures var m := Min(n, bufsize - 1);
            dst[..m] == src[..m] && dst[m..] == [NUL] + old(dst[m + 1..])
  {
    n := |src|;
    var m := Min(n, bufsize - 1);
    ghost var behind := dst[m + 1..];
    forall i | 0 <= i < m {
      dst[i] := src[i];
    }
    dst[m] := NUL;
    assert dst[m + 1..] == behind;
  }
}
