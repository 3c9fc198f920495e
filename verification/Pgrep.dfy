/**
 * src/pgrep.c: quoting an argument vector for a shell.
 *
 * The reference is the other side: a word splitter after section 2.2 (Quoting) of the
 * POSIX Shell Command Language.
 */
module Pgrep {
  import opened Options

  const NUL: char := '\0'

  // ----- Reference: splitting a command line into words ---------------------------------

  /** Outside quotes these mean something to a shell, or may. Backslash and single quote apart. */
  predicate Special(c: char) {
    c in {'|', '&', ';', '<', '>', '(', ')', '$', '`', '"', '\n', '*', '?', '[', '#', '~', '=', '!', '{', '}'}
  }

  predicate Blank(c: char) {
    c == ' ' || c == '\t'
  }

  function Prepend(word: Option<string>, words: Option<seq<string>>): Option<seq<string>> {
    if word.None? then words
    else if words.None? then None
    else Some([word.value] + words.value)
  }

  function Extend(word: Option<string>, c: char): Option<string> {
    Some((if word.None? then "" else word.value) + [c])
  }

  /**
   * The words of `s` when the word so far is `word`, None between words. `quoted` says
   * whether a single quote is open. The result is None for text that is not just words.
   */
  function Words(s: string, quoted: bool, word: Option<string>): Option<seq<string>>
    decreases |s|
  {
    if s == [] then
      if quoted then None else Some(if word.None? then [] else [word.value])
    else if quoted then
      if s[0] == '\'' then Words(s[1..], false, word)
      else Words(s[1..], true, Extend(word, s[0]))
    else if Blank(s[0]) then Prepend(word, Words(s[1..], false, None))
    else if s[0] == '\'' then Words(s[1..], true, if word.None? then Some("") else word)
    else if s[0] == '\\' then
      if |s| == 1 then None
      else if s[1] == '\n' then Words(s[2..], false, word)
      else Words(s[2..], false, Extend(word, s[1]))
    else if Special(s[0]) then None
    else Words(s[1..], false, Extend(word, s[0]))
  }

  /** The words a shell finds in `s`. */
  function ShellSplit(s: string): Option<seq<string>> {
    Words(s, false, None)
  }

  // ----- Quoting, on values ------------------------------------------------------------------

  predicate SafeChar(c: char) {
    || 'a' <= c <= 'z' || 'A' <= c <= 'Z' || '0' <= c <= '9'
    || c in {'_', '@', '%', '+', ':', ',', '.', '/', '-'}
  }

  predicate Safe(token: string) {
    token != [] && forall i :: 0 <= i < |token| ==> SafeChar(token[i])
  }

  /** A character inside the quotes: a single quote closes, escapes itself and reopens. */
  function InsideChar(c: char): string {
    if c == '\'' then "'\\''" else [c]
  }

  function Inside(token: string): string {
    if token == [] then [] else Inside(token[..|token| - 1]) + InsideChar(token[|token| - 1])
  }

  function QuoteToken(token: string): string {
    if Safe(token) then token else "'" + Inside(token) + "'"
  }

  function Quote(argv: seq<string>): string {
    if argv == [] then []
    else
      var n := |argv| - 1;
      Quote(argv[..n]) + (if n > 0 then " " else "") + QuoteToken(argv[n])
  }

  /** The space reserved for a token, and for a vector without its final NUL. */
  function Worst(token: string): nat {
    if Safe(token) then |token| else 2 + 4 * |token|
  }

  function WorstAll(argv: seq<string>): nat {
    if argv == [] then 0
    else
      var n := |argv| - 1;
      WorstAll(argv[..n]) + (if n > 0 then 1 else 0) + Worst(argv[n])
  }

  lemma {:induction false} InsideFits(token: string)
    ensures |Inside(token)| <= 4 * |token|
  {
    if token != [] {
      InsideFits(token[..|token| - 1]);
    }
  }

  lemma TokenFits(token: string)
    ensures |QuoteToken(token)| <= Worst(token)
  {
    InsideFits(token);
  }

  lemma {:induction false} QuoteFits(argv: seq<string>)
    ensures |Quote(argv)| <= WorstAll(argv)
    decreases |argv|
  {
    if argv != [] {
      QuoteFits(argv[..|argv| - 1]);
      TokenFits(argv[|argv| - 1]);
    }
  }

  lemma {:induction false} InsideGrowsLength(token: string)
    ensures |Inside(token)| >= |token|
  {
    if token != [] {
      InsideGrowsLength(token[..|token| - 1]);
    }
  }

  /** Letters, digits and nine other ASCII characters, by their codes. */
  ghost predicate NeedsNoQuotes(c: char) {
    var n := c as int;
    48 <= n <= 57 || 65 <= n <= 90 || 97 <= n <= 122 || c in "_@%+:,./-"
  }

  /** A token is left as it is exactly when it is not empty and no character of it needs quotes. */
  lemma LeftAlone(token: string)
    ensures QuoteToken(token) == token <==> token != [] && forall i :: 0 <= i < |token| ==> NeedsNoQuotes(token[i])
  {
    assert Safe(token) <==> token != [] && forall i :: 0 <= i < |token| ==> NeedsNoQuotes(token[i]) by {
      assert forall c: char :: SafeChar(c) <==> NeedsNoQuotes(c);
    }
    if !Safe(token) {
      InsideGrowsLength(token);
      assert |QuoteToken(token)| == |Inside(token)| + 2;
    }
  }

  /** No less space would do: tokens of single quotes need all that is reserved. */
  lemma WorstReached(n: nat)
    requires n > 0
    ensures var token := seq(n, _ => '\'');
            |QuoteToken(token)| == Worst(token) == 4 * n + 2
  {
    var token := seq(n, _ => '\'');
    assert token[0] == '\'' && !SafeChar(token[0]);
    InsideQuotes(token);
  }

  lemma {:induction false} InsideQuotes(token: string)
    requires forall i :: 0 <= i < |token| ==> token[i] == '\''
    ensures |Inside(token)| == 4 * |token|
  {
    if token != [] {
      InsideQuotes(token[..|token| - 1]);
    }
  }

  // ----- Round trip --------------------------------------------------------------------------------

  function Started(word: Option<string>): string {
    if word.None? then "" else word.value
  }

  /** A safe token reads as itself. */
  lemma {:induction false} SafeReads(token: string, rest: string, word: Option<string>)
    requires forall i :: 0 <= i < |token| ==> SafeChar(token[i])
    ensures token != [] ==> Words(token + rest, false, word) == Words(rest, false, Some(Started(word) + token))
    decreases |token|
  {
    if token != [] {
      var s := token + rest;
      assert s[0] == token[0] && s[1..] == token[1..] + rest;
      assert SafeChar(token[0]);
      assert !Blank(token[0]) && !Special(token[0]) && token[0] != '\'' && token[0] != '\\';
      var next := Extend(word, token[0]);
      if |token| > 1 {
        SafeReads(token[1..], rest, next);
        assert Started(next) + token[1..] == Started(word) + token;
      } else {
        assert token[1..] + rest == rest;
        assert Started(word) + token == next.value;
      }
    }
  }

  /** The first character inside, in front of the others. */
  lemma {:induction false} InsideFirst(token: string)
    requires token != []
    ensures Inside(token) == InsideChar(token[0]) + Inside(token[1..])
    decreases |token|
  {
    var n := |token| - 1;
    if n > 0 {
      InsideFirst(token[..n]);
      assert token[..n][1..] == token[1..][..n - 1];
    } else {
      assert token[..0] == [] && token[1..] == [];
    }
  }

  /** What is inside the quotes reads as the token. */
  lemma {:induction false} InsideReads(token: string, rest: string, word: string)
    ensures Words(Inside(token) + rest, true, Some(word)) == Words(rest, true, Some(word + token))
    decreases |token|
  {
    if |token| == 0 {
      assert Inside(token) + rest == rest && word + token == word;
    } else {
      hide *;
      InsideFirst(token);
      var first, tail := InsideChar(token[0]), Inside(token[1..]);
      Assoc(first, tail, rest);
      CharReads(token[0], tail + rest, word);
      InsideReads(token[1..], rest, word + [token[0]]);
      FirstAndRest(word, token);
    }
  }

  lemma FirstAndRest(word: string, token: string)
    requires |token| > 0
    ensures word + [token[0]] + token[1..] == word + token
  {
  }

  /** One character inside the quotes. */
  lemma CharReads(c: char, tail: string, word: string)
    ensures Words(InsideChar(c) + tail, true, Some(word)) == Words(tail, true, Some(word + [c]))
  {
    if c == '\'' {
      QuoteCharReads(tail, word);
    } else {
      assert ([c] + tail)[1..] == tail;
    }
  }

  lemma Assoc(a: string, b: string, c: string)
    ensures (a + b) + c == a + (b + c)
  {
  }

  /** Close, escaped quote, reopen. */
  lemma QuoteCharReads(tail: string, word: string)
    ensures Words("'\\''" + tail, true, Some(word)) == Words(tail, true, Some(word + ['\'']))
  {
    var s := "'\\''" + tail;
    var s1, s2 := ['\\', '\'', '\''] + tail, ['\''] + tail;
    var grown := Extend(Some(word), '\'');
    assert s[0] == '\'' && s[1..] == s1 && s1[2..] == s2 && s2[1..] == tail;
    assert s1[0] == '\\' && s1[1] == '\'' && s2[0] == '\'';
    assert Words(s1, false, Some(word)) == Words(s2, false, grown);
    assert Words(s2, false, grown) == Words(tail, true, grown);
    assert grown == Some(word + ['\'']);
  }

  lemma QuoteOpens(tail: string)
    ensures Words("'" + tail, false, None) == Words(tail, true, Some(""))
  {
    assert ("'" + tail)[1..] == tail;
  }

  lemma QuoteCloses(tail: string, word: string)
    ensures Words("'" + tail, true, Some(word)) == Words(tail, false, Some(word))
  {
    assert ("'" + tail)[1..] == tail;
  }

  lemma TokenReads(token: string, rest: string)
    ensures Words(QuoteToken(token) + rest, false, None) == Words(rest, false, Some(token))
  {
    hide Words;
    if Safe(token) {
      SafeReads(token, rest, None);
      assert Started(None) + token == token;
    } else {
      assert QuoteToken(token) + rest == "'" + (Inside(token) + ("'" + rest));
      hide *;
      QuoteOpens(Inside(token) + ("'" + rest));
      InsideReads(token, "'" + rest, "");
      assert "" + token == token;
      QuoteCloses(rest, token);
    }
  }

  lemma QuoteSnoc(argv: seq<string>, token: string)
    ensures Quote(argv + [token]) == Quote(argv) + (if argv == [] then "" else " ") + QuoteToken(token)
  {
    assert (argv + [token])[..|argv|] == argv;
  }

  /** The quoted text starts with the first token. */
  lemma {:induction false} QuoteFront(argv: seq<string>)
    requires argv != []
    ensures Quote(argv) == QuoteToken(argv[0]) + if |argv| == 1 then "" else " " + Quote(argv[1..])
    decreases |argv|
  {
    hide QuoteToken, Quote;
    var n := |argv| - 1;
    var a, t := argv[..n], argv[n];
    assert argv == a + [t];
    QuoteSnoc(a, t);
    if n > 0 {
      QuoteFront(a);
      assert argv[1..] == a[1..] + [t];
      QuoteSnoc(a[1..], t);
      QuoteEmpty();
      var first, last := QuoteToken(argv[0]), QuoteToken(t);
      var x := if |a| == 1 then "" else " " + Quote(a[1..]);
      assert x + " " + last == " " + Quote(argv[1..]);
      assert first + x + " " + last == first + (x + " " + last);
    } else {
      QuoteEmpty();
    }
  }

  lemma QuoteEmpty()
    ensures Quote([]) == ""
  {
  }

  /** For every argument vector, a shell reads the quoted text as exactly that vector. */
  lemma {:induction false} QuoteRoundTrip(argv: seq<string>)
    ensures ShellSplit(Quote(argv)) == Some(argv)
    decreases |argv|
  {
    if argv != [] {
      QuoteFront(argv);
      hide QuoteToken;
      var rest := if |argv| == 1 then "" else " " + Quote(argv[1..]);
      TokenReads(argv[0], rest);
      assert [argv[0]] + argv[1..] == argv;
      if |argv| > 1 {
        QuoteRoundTrip(argv[1..]);
        assert rest[1..] == Quote(argv[1..]);
        assert Words(rest, false, Some(argv[0])) == Prepend(Some(argv[0]), Words(rest[1..], false, None));
      } else {
        assert argv == [argv[0]] && Quote(argv) == QuoteToken(argv[0]) + rest;
      }
    }
  }

  /** Different vectors are quoted differently. */
  lemma QuoteInjective(a: seq<string>, b: seq<string>)
    requires Quote(a) == Quote(b)
    ensures a == b
  {
    QuoteRoundTrip(a);
    QuoteRoundTrip(b);
  }

  // ----- The code ------------------------------------------------------------------------------------

  /** is_token_safe */
  method IsTokenSafe(token: string) returns (safe: bool)
    ensures safe == Safe(token)
  {
    if token == [] {
      return false;
    }
    var i := 0;
    while i < |token|
      invariant 0 <= i <= |token| && forall k :: 0 <= k < i ==> SafeChar(token[k])
    {
      var c := token[i];
      if (c >= 'a' && c <= 'z') || (c >= 'A' && c <= 'Z') || (c >= '0' && c <= '9') {
        i := i + 1;
        continue;
      }
      match c {
        case '_' | '@' | '%' | '+' | ':' | ',' | '.' | '/' | '-' =>
        case _ =>
          return false;
      }
      i := i + 1;
    }
    return true;
  }

  /** The first pass of shell_quote_vector. */
  method WorstSize(argv: seq<string>) returns (totalWorst: nat)
    ensures totalWorst == WorstAll(argv) + 1
  {
    totalWorst := 0;
    var i := 0;
    assert argv[..0] == [];
    while i < |argv|
      invariant 0 <= i <= |argv| && totalWorst == WorstAll(argv[..i])
    {
      assert argv[..i + 1][..i] == argv[..i];
      if i > 0 {
        totalWorst := totalWorst + 1;
      }
      var token := argv[i];
      var safe := IsTokenSafe(token);
      if safe {
        totalWorst := totalWorst + |token|;
      } else {
        totalWorst := totalWorst + 2 + |token| * 4;
      }
      i := i + 1;
    }
    assert argv[..i] == argv;
    totalWorst := totalWorst + 1;
  }

  /** One turn of the loop over an unsafe token. */
  method PutChar(result: array<char>, pos0: nat, c: char) returns (pos: nat)
    requires pos0 + 4 <= result.Length
    modifies result
    ensures pos == pos0 + |InsideChar(c)| <= pos0 + 4
    ensures result[..pos] == old(result[..pos0]) + InsideChar(c)
  {
    if c == '\'' {
      result[pos0], result[pos0 + 1], result[pos0 + 2], result[pos0 + 3] := '\'', '\\', '\'', '\'';
      pos := pos0 + 4;
    } else {
      result[pos0] := c;
      pos := pos0 + 1;
    }
  }

  method Put(result: array<char>, pos0: nat, c: char) returns (pos: nat)
    requires pos0 < result.Length
    modifies result
    ensures pos == pos0 + 1
    ensures result[..pos] == old(result[..pos0]) + [c]
  {
    result[pos0] := c;
    pos := pos0 + 1;
  }

  /** The loop over an unsafe token. */
  method PutInside(result: array<char>, pos0: nat, token: string) returns (pos: nat)
    requires pos0 + 4 * |token| <= result.Length
    modifies result
    ensures pos == pos0 + |Inside(token)| <= pos0 + 4 * |token|
    ensures result[..pos] == old(result[..pos0]) + Inside(token)
  {
    pos := pos0;
    var p := 0;
    ghost var before := result[..pos0];
    InsideGrows(token);
    assert token[..|token|] == token && before + Inside(token[..0]) == before;
    hide *;
    while p < |token|
      invariant 0 <= p <= |token| && pos == pos0 + |Inside(token[..p])| <= pos0 + 4 * p
      invariant result[..pos] == before + Inside(token[..p])
    {
      pos := PutChar(result, pos, token[p]);
      Assoc(before, Inside(token[..p]), InsideChar(token[p]));
      p := p + 1;
    }
  }

  /** Quote one unsafe token at `pos0`. */
  method PutQuoted(result: array<char>, pos0: nat, token: string) returns (pos: nat)
    requires pos0 + 2 + 4 * |token| <= result.Length
    modifies result
    ensures pos == pos0 + 2 + |Inside(token)| <= pos0 + 2 + 4 * |token|
    ensures result[..pos] == old(result[..pos0]) + ("'" + Inside(token) + "'")
  {
    hide *;
    pos := Put(result, pos0, '\'');
    pos := PutInside(result, pos, token);
    pos := Put(result, pos, '\'');
    Assoc4(old(result[..pos0]), "'", Inside(token), "'");
  }

  lemma Assoc4(a: string, b: string, c: string, d: string)
    ensures ((a + b) + c) + d == a + (b + c + d)
  {
  }

  lemma InsideGrows(token: string)
    ensures Inside(token[..0]) == ""
    ensures forall p :: 0 <= p < |token| ==> Inside(token[..p + 1]) == Inside(token[..p]) + InsideChar(token[p])
  {
    forall p | 0 <= p < |token|
      ensures Inside(token[..p + 1]) == Inside(token[..p]) + InsideChar(token[p])
    {
      assert token[..p + 1][..p] == token[..p];
    }
  }

  /** shell_quote_vector: the result is a C string, its end the NUL at `pos`. */
  method ShellQuoteVector(argv: seq<string>) returns (result: array<char>, pos: nat)
    requires forall i :: 0 <= i < |argv| ==> NUL !in argv[i]
    ensures pos < result.Length == WorstAll(argv) + 1
    ensures result[..pos] == Quote(argv) && result[pos] == NUL
    ensures ShellSplit(result[..pos]) == Some(argv)
  {
    var totalWorst := WorstSize(argv);
    result := new char[totalWorst];
    pos := 0;
    var i := 0;
    assert argv[..0] == [] && argv[..|argv|] == argv;
    while i < |argv|
      invariant 0 <= i <= |argv| && pos <= WorstAll(argv[..i])
      invariant pos < result.Length && result[..pos] == Quote(argv[..i])
    {
      hide *;
      OneMore(argv, i);
      WorstMonotone(argv, i + 1);
      pos := PutToken(result, pos, i, argv[i]);
      i := i + 1;
    }
    result[pos] := NUL;
    QuoteRoundTrip(argv);
  }

  /** One turn of the second loop of shell_quote_vector. */
  method PutToken(result: array<char>, pos0: nat, i: nat, token: string) returns (pos: nat)
    requires pos0 + (if i > 0 then 1 else 0) + Worst(token) < result.Length
    modifies result
    ensures pos0 <= pos <= pos0 + (if i > 0 then 1 else 0) + Worst(token)
    ensures result[..pos] == old(result[..pos0]) + (if i > 0 then " " else "") + QuoteToken(token)
  {
    pos := pos0;
    ghost var done := result[..pos];
    if i > 0 {
      result[pos] := ' ';
      pos := pos + 1;
    }
    assert result[..pos] == done + if i > 0 then " " else "";
    InsideFits(token);
    var safe := IsTokenSafe(token);
    if safe {
      ghost var now := result[..pos];
      forall k | 0 <= k < |token| {
        result[pos + k] := token[k];
      }
      pos := pos + |token|;
      assert result[..pos] == now + token;
    } else {
      pos := PutQuoted(result, pos, token);
    }
  }

  lemma OneMore(argv: seq<string>, i: nat)
    requires i < |argv|
    ensures WorstAll(argv[..i + 1]) == WorstAll(argv[..i]) + (if i > 0 then 1 else 0) + Worst(argv[i])
    ensures Quote(argv[..i + 1]) == Quote(argv[..i]) + (if i > 0 then " " else "") + QuoteToken(argv[i])
  {
    assert argv[..i + 1][..i] == argv[..i];
  }

  lemma {:induction false} WorstMonotone(argv: seq<string>, i: nat)
    requires i <= |argv|
    ensures WorstAll(argv[..i]) <= WorstAll(argv)
    decreases |argv|
  {
    if i == |argv| {
      assert argv[..i] == argv;
    } else {
      WorstMonotone(argv[..|argv| - 1], i);
      assert argv[..|argv| - 1][..i] == argv[..i];
    }
  }
}
