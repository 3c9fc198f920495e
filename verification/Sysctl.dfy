/**
 * src/sysctl.c: mapping keys to paths and back, and deciding which of several settings
 * for a path takes effect.
 *
 * glob(3) and fnmatch(3) are parameters.
 */
module Sysctl {
  import opened Options

  const PROC_PATH: string := "/proc/sys/"

  // ----- Keys and paths ---------------------------------------------------------------

  predicate IsSeparator(c: char) {
    c == '/' || c == '.'
  }

  /** Position of the first separator, or the length. */
  function FirstSeparator(s: string): (k: nat)
    ensures k <= |s| && (forall i :: 0 <= i < k ==> !IsSeparator(s[i])) && (k < |s| ==> IsSeparator(s[k]))
  {
    if s == [] || IsSeparator(s[0]) then 0 else 1 + FirstSeparator(s[1..])
  }

  function Swap(c: char): char {
    if c == '/' then '.' else if c == '.' then '/' else c
  }

  function SwapAll(s: string): (r: string)
    ensures |r| == |s| && forall i :: 0 <= i < |s| ==> r[i] == Swap(s[i])
  {
    seq(|s|, i requires 0 <= i < |s| => Swap(s[i]))
  }

  /** Bring the first separator to `wanted` by exchanging all separators, if need be. */
  function SlashDotted(s: string, wanted: char): string {
    var k := FirstSeparator(s);
    if k == |s| || s[k] == wanted then s else SwapAll(s)
  }

  /** A key, in either notation, as a path below /proc/sys, and a path as a dotted key. */
  function PathOf(key: string): string {
    SlashDotted(key, '/')
  }

  function KeyOf(path: string): string {
    SlashDotted(path, '.')
  }

  lemma SwapTwice(s: string)
    ensures SwapAll(SwapAll(s)) == s
  {
  }

  lemma {:induction false} FirstSeparatorIs(s: string, k: nat)
    requires k <= |s| && (forall i :: 0 <= i < k ==> !IsSeparator(s[i])) && (k < |s| ==> IsSeparator(s[k]))
    ensures FirstSeparator(s) == k
  {
    if k > 0 {
      FirstSeparatorIs(s[1..], k - 1);
    }
  }

  lemma SwapFirst(s: string)
    ensures FirstSeparator(SwapAll(s)) == FirstSeparator(s)
  {
    FirstSeparatorIs(SwapAll(s), FirstSeparator(s));
  }

  /** The key printed for a path leads back to that path, whichever notation it came from. */
  lemma PrintedKeyNamesPath(key: string)
    ensures PathOf(KeyOf(PathOf(key))) == PathOf(key)
  {
    SwapTwice(key);
    SwapFirst(key);
    SwapFirst(SwapAll(key));
  }

  /** Two keys name the same path exactly when they are the same up to notation. */
  lemma SamePath(j: string, k: string)
    ensures PathOf(j) == PathOf(k) <==> (j == k || (j == SwapAll(k) && FirstSeparator(k) < |k|))
  {
    SwapTwice(j);
    SwapTwice(k);
    SwapFirst(j);
    SwapFirst(k);
    if FirstSeparator(j) == |j| && PathOf(j) == SwapAll(k) {
      assert FirstSeparator(SwapAll(k)) == |k|;
    }
  }

  /**
   * `r` is `s`, or `s` with every slash and every dot exchanged, and its first separator, if
   * it has one, is `c`.
   */
  ghost predicate InNotation(s: string, r: string, c: char) {
    && (r == s || ExchangedIn(s, r))
    && forall i :: 0 <= i < |r| && (r[i] == '/' || r[i] == '.') && NoneIn(r[..i]) ==> r[i] == c
  }

  ghost predicate ExchangedIn(s: string, r: string) {
    |r| == |s| && forall i :: 0 <= i < |s| ==> r[i] == if s[i] == '/' then '.' else if s[i] == '.' then '/' else s[i]
  }

  ghost predicate NoneIn(s: string) {
    '/' !in s && '.' !in s
  }

  /** That determines the text. */
  lemma NotationUnique(s: string, a: string, b: string, c: char)
    requires InNotation(s, a, c) && InNotation(s, b, c)
    ensures a == b
  {
    var k := FirstSeparator(s);
    if k < |s| {
      assert NoneIn(s[..k]);
      FirstOf(s, a, k);
      FirstOf(s, b, k);
    } else {
      assert forall i :: 0 <= i < |s| ==> a[i] == s[i] == b[i];
    }
  }

  lemma FirstOf(s: string, r: string, k: nat)
    requires (r == s || ExchangedIn(s, r)) && k < |s| && NoneIn(s[..k])
    ensures NoneIn(r[..k])
  {
    forall i | 0 <= i < k
      ensures r[..k][i] != '/' && r[..k][i] != '.'
    {
      assert s[..k][i] == s[i];
    }
  }

  lemma SlashDottedIs(s: string, wanted: char)
    requires wanted == '/' || wanted == '.'
    ensures InNotation(s, SlashDotted(s, wanted), wanted)
  {
    var k, r := FirstSeparator(s), SlashDotted(s, wanted);
    forall i | 0 <= i < |r| && (r[i] == '/' || r[i] == '.')
      ensures NoneIn(r[..i]) ==> r[i] == wanted
    {
      assert IsSeparator(s[i]);
      if k < i {
        NotFirst(r, k, i);
      }
    }
  }

  lemma NotFirst(r: string, k: nat, i: nat)
    requires k < i <= |r| && (r[k] == '/' || r[k] == '.')
    ensures !NoneIn(r[..i])
  {
    assert r[..i][k] == r[k];
  }

  /** slashdot on the part of a buffer from `from` on. */
  method SlashDot(p: array<char>, from: nat, was: char, wanted: char)
    requires from <= p.Length
    requires (was == '.' && wanted == '/') || (was == '/' && wanted == '.')
    modifies p
    ensures p[..from] == old(p[..from]) && p[from..] == SlashDotted(old(p[from..]), wanted)
    ensures InNotation(old(p[from..]), p[from..], wanted)
  {
    hide InNotation, SwapAll, Swap;
    ghost var s := p[from..];
    SlashDottedIs(s, wanted);
    var i := Strpbrk(p, from);
    assert forall k :: from <= k < p.Length ==> p[k] == s[k - from];
    FirstSeparatorIs(s, i - from);
    if i == p.Length {
      return;
    }
    if p[i] == wanted {
      return;
    }
    Exchange(p, from, i, was, wanted);
  }

  /** The loop of slashdot, from the first separator on. */
  method Exchange(p: array<char>, from: nat, first: nat, was: char, wanted: char)
    requires from <= first < p.Length && IsSeparator(p[first])
    requires forall k :: from <= k < first ==> !IsSeparator(p[k])
    requires (was == '.' && wanted == '/') || (was == '/' && wanted == '.')
    modifies p
    ensures p[..from] == old(p[..from]) && p[from..] == SwapAll(old(p[from..]))
  {
    var i := first;
    ghost var s := p[..];
    while i < p.Length
      invariant from <= i <= p.Length
      invariant forall k :: from <= k < i ==> p[k] == Swap(s[k])
      invariant forall k :: 0 <= k < from || i <= k < p.Length ==> p[k] == s[k]
      invariant i < p.Length ==> IsSeparator(p[i])
      decreases p.Length - i
    {
      var c := p[i];
      if c == was {
        p[i] := wanted;
      }
      if c == wanted {
        p[i] := was;
      }
      i := Strpbrk(p, i + 1);
    }
    Exchanged(s, p[..], from);
  }

  lemma Exchanged(s: string, r: string, from: nat)
    requires from <= |s| == |r| && forall k :: 0 <= k < from ==> r[k] == s[k]
    requires forall k :: from <= k < |s| ==> r[k] == Swap(s[k])
    ensures r[..from] == s[..from] && r[from..] == SwapAll(s[from..])
  {
  }

  /** strpbrk(p + from, "/."), the end of the buffer standing for NULL. */
  method Strpbrk(p: array<char>, from: nat) returns (i: nat)
    requires from <= p.Length
    ensures from <= i <= p.Length && (forall k :: from <= k < i ==> !IsSeparator(p[k]))
    ensures i < p.Length ==> IsSeparator(p[i])
  {
    i := from;
    while i < p.Length && !IsSeparator(p[i])
      invariant from <= i <= p.Length && forall k :: from <= k < i ==> !IsSeparator(p[k])
    {
      i := i + 1;
    }
  }

  // ----- Settings --------------------------------------------------------------------------

  /** A path, compared with strcmp. */
  datatype Path = Path(chars: string)

  /** SysctlSetting without its link; an exclude has no value. */
  datatype Setting = Setting(key: string, path: Path, value: string, ignoreFailure: bool, globExclude: bool)

  /** The environment: what a pattern expands to, and which paths it matches. */
  datatype Globbing = Globbing(expand: Path -> seq<Path>, fnmatch: (Path, Path) -> bool)

  predicate IsGlob(p: Path) {
    exists i :: 0 <= i < |p.chars| && p.chars[i] in {'*', '?', '['}
  }

  /** setting_new: a leading dash is not part of the path. */
  method SettingNew(key: string, value: string, ignoreFailure: bool, globExclude: bool) returns (s: Setting)
    ensures s.key == key && s.value == value && s.ignoreFailure == ignoreFailure && s.globExclude == globExclude
    ensures var tail := if key != [] && key[0] == '-' then key[1..] else key;
            && s.path == Path(PROC_PATH + PathOf(tail))
            && |s.path.chars| >= 10 && s.path.chars[..10] == "/proc/sys/"
            && InNotation(tail, s.path.chars[10..], '/')
  {
    var tail := if key != [] && key[0] == '-' then key[1..] else key;
    var n := |PROC_PATH|;
    var full := PROC_PATH + tail;
    var path := new char[|full|](i requires 0 <= i < |full| => full[i]);
    assert path[..] == full;
    assert path[n..] == tail && path[..n] == PROC_PATH;
    SlashDot(path, n, '.', '/');
    assert path[..] == path[..n] + path[n..];
    s := Setting(key, Path(path[..]), value, ignoreFailure, globExclude);
  }

  // ----- Which setting wins --------------------------------------------------------------------

  predicate Explicit(s: Setting) {
    !s.globExclude && !IsGlob(s.path)
  }

  predicate Globbed(s: Setting) {
    !s.globExclude && IsGlob(s.path)
  }

  /** What settinglist_findpath looks for. */
  predicate Claims(s: Setting, g: Globbing, p: Path) {
    s.path == p || (s.globExclude && g.fnmatch(s.path, p))
  }

  predicate Claimed(ss: seq<Setting>, g: Globbing, p: Path) {
    exists i :: 0 <= i < |ss| && Claims(ss[i], g, p)
  }

  /** The last setting that satisfies `which`, or -1. */
  function LastOf(ss: seq<Setting>, which: Setting -> bool): (k: int)
    ensures -1 <= k < |ss|
    ensures k >= 0 ==> which(ss[k])
    ensures forall i :: k < i < |ss| ==> !which(ss[i])
  {
    if ss == [] then -1
    else if which(ss[|ss| - 1]) then |ss| - 1
    else LastOf(ss[..|ss| - 1], which)
  }

  function ValueAt(ss: seq<Setting>, k: int): Option<string>
    requires -1 <= k < |ss|
  {
    if k < 0 then None else Some(ss[k].value)
  }

  /**
   * The documented outcome for a path: its last explicit setting; failing that, and if no
   * entry names or excludes it, the last pattern that expands to it; failing that, nothing.
   */
  function Resolve(ss: seq<Setting>, g: Globbing, p: Path): Option<string> {
    var explicitly := LastOf(ss, (s: Setting) => Explicit(s) && s.path == p);
    if explicitly >= 0 then Some(ss[explicitly].value)
    else if Claimed(ss, g, p) then None
    else ValueAt(ss, LastOf(ss, (s: Setting) => Globbed(s) && p in g.expand(s.path)))
  }

  // ----- What is written ---------------------------------------------------------------------------

  /** A call of WriteSetting. */
  datatype Write = Write(key: string, path: Path, value: string, ignoreFailure: bool)

  /** The call for a setting and one path it is for. */
  function WriteOf(s: Setting, path: Path): Write {
    Write(s.key, path, s.value, s.ignoreFailure)
  }

  /** The writes for one pattern's expansion: paths claimed by some entry are left out. */
  function GlobWrites(paths: seq<Path>, s: Setting, all: seq<Setting>, g: Globbing): seq<Write> {
    if paths == [] then []
    else
      var n := |paths| - 1;
      GlobWrites(paths[..n], s, all, g) + if Claimed(all, g, paths[n]) then [] else [WriteOf(s, paths[n])]
  }

  lemma GlobWritesEnds(paths: seq<Path>, s: Setting, all: seq<Setting>, g: Globbing)
    ensures GlobWrites(paths[..0], s, all, g) == [] && paths[..|paths|] == paths
  {
  }

  lemma GlobWritesNext(paths: seq<Path>, i: nat, s: Setting, all: seq<Setting>, g: Globbing)
    requires i < |paths|
    ensures GlobWrites(paths[..i + 1], s, all, g) ==
            GlobWrites(paths[..i], s, all, g) + if Claimed(all, g, paths[i]) then [] else [WriteOf(s, paths[i])]
  {
    assert paths[..i + 1][..i] == paths[..i];
  }

  function WritesOf(s: Setting, all: seq<Setting>, g: Globbing): seq<Write> {
    if s.globExclude then []
    else if IsGlob(s.path) then GlobWrites(g.expand(s.path), s, all, g)
    else [WriteOf(s, s.path)]
  }

  function Writes(ss: seq<Setting>, all: seq<Setting>, g: Globbing): seq<Write> {
    if ss == [] then [] else Writes(ss[..|ss| - 1], all, g) + WritesOf(ss[|ss| - 1], all, g)
  }

  lemma WritesEnds(ss: seq<Setting>, g: Globbing)
    ensures Writes(ss[..0], ss, g) == [] && ss[..|ss|] == ss
  {
  }

  lemma WritesNext(ss: seq<Setting>, i: nat, g: Globbing)
    requires i < |ss|
    ensures Writes(ss[..i + 1], ss, g) == Writes(ss[..i], ss, g) + WritesOf(ss[i], ss, g)
  {
    assert ss[..i + 1][..i] == ss[..i];
  }

  /** The value a path holds after the writes, if any of them was to it. */
  function LastWrite(log: seq<Write>, p: Path): Option<string> {
    if log == [] then None
    else if log[|log| - 1].path == p then Some(log[|log| - 1].value)
    else LastWrite(log[..|log| - 1], p)
  }

  lemma {:induction false} LastWriteConcat(a: seq<Write>, b: seq<Write>, p: Path)
    ensures LastWrite(a + b, p) == if LastWrite(b, p).Some? then LastWrite(b, p) else LastWrite(a, p)
    decreases |b|
  {
    if b == [] {
      assert a + b == a;
    } else {
      assert (a + b)[..|a + b| - 1] == a + b[..|b| - 1];
      LastWriteConcat(a, b[..|b| - 1], p);
    }
  }

  lemma {:induction false} GlobWritesLast(paths: seq<Path>, s: Setting, all: seq<Setting>, g: Globbing, p: Path)
    ensures LastWrite(GlobWrites(paths, s, all, g), p)
         == if p in paths && !Claimed(all, g, p) then Some(s.value) else None
    decreases |paths|
  {
    if paths != [] {
      var n := |paths| - 1;
      assert p in paths <==> p in paths[..n] || p == paths[n];
      GlobWritesLast(paths[..n], s, all, g, p);
      LastWriteConcat(GlobWrites(paths[..n], s, all, g),
                      if Claimed(all, g, paths[n]) then [] else [WriteOf(s, paths[n])], p);
    }
  }

  /** The outcome over a prefix of the list, excludes and names being those of the whole list. */
  function ResolvePrefix(ss: seq<Setting>, all: seq<Setting>, g: Globbing, p: Path): Option<string> {
    var explicitly := LastOf(ss, (s: Setting) => Explicit(s) && s.path == p);
    if explicitly >= 0 then Some(ss[explicitly].value)
    else if Claimed(all, g, p) then None
    else ValueAt(ss, LastOf(ss, (s: Setting) => Globbed(s) && p in g.expand(s.path)))
  }

  lemma {:induction false} WritesResolvePrefix(ss: seq<Setting>, all: seq<Setting>, g: Globbing, p: Path)
    requires ss <= all
    ensures LastWrite(Writes(ss, all, g), p) == ResolvePrefix(ss, all, g, p)
    decreases |ss|
  {
    if ss != [] {
      var n := |ss| - 1;
      var s := ss[n];
      WritesResolvePrefix(ss[..n], all, g, p);
      LastWriteConcat(Writes(ss[..n], all, g), WritesOf(s, all, g), p);
      if Globbed(s) {
        GlobWritesLast(g.expand(s.path), s, all, g, p);
        if Claimed(all, g, p) {
        } else {
          // an explicit setting of p would claim it
          ExplicitClaims(ss, all, g, p);
        }
      } else if Explicit(s) {
        assert [WriteOf(s, s.path)][..0] == [];
        if s.path != p {
          assert LastWrite([WriteOf(s, s.path)], p) == None;
        }
      }
    }
  }

  lemma ExplicitClaims(ss: seq<Setting>, all: seq<Setting>, g: Globbing, p: Path)
    requires ss <= all && !Claimed(all, g, p)
    ensures LastOf(ss, (s: Setting) => Explicit(s) && s.path == p) < 0
  {
    var k := LastOf(ss, (s: Setting) => Explicit(s) && s.path == p);
    if k >= 0 {
      assert Claims(all[k], g, p);
    }
  }

  /** For every list of settings, what ends up in a path is the documented outcome. */
  lemma WritesResolve(ss: seq<Setting>, g: Globbing, p: Path)
    ensures LastWrite(Writes(ss, ss, g), p) == Resolve(ss, g, p)
  {
    WritesResolvePrefix(ss, ss, g, p);
  }

  /** A path without any of the characters that make a pattern. */
  ghost predicate Plain(p: Path) {
    '*' !in p.chars && '?' !in p.chars && '[' !in p.chars
  }

  /** Setting `i` names path `p` itself, or is a pattern that expands to it. */
  ghost predicate SetsPlainly(ss: seq<Setting>, i: int, p: Path)
    requires 0 <= i < |ss|
  {
    !ss[i].globExclude && Plain(ss[i].path) && ss[i].path == p
  }

  ghost predicate SetsByPattern(ss: seq<Setting>, i: int, g: Globbing, p: Path)
    requires 0 <= i < |ss|
  {
    !ss[i].globExclude && !Plain(ss[i].path) && p in g.expand(ss[i].path)
  }

  /** Setting `i` keeps patterns off path `p`: it excludes it, or bears its name. */
  ghost predicate KeepsOff(ss: seq<Setting>, i: int, g: Globbing, p: Path)
    requires 0 <= i < |ss|
  {
    (ss[i].globExclude && g.fnmatch(ss[i].path, p)) || ss[i].path == p
  }

  /**
   * The outcome for a path in plain terms: the last line that names it wins over all patterns;
   * else a line that excludes it or bears its name leaves it alone; else the last pattern that
   * expands to it wins; else nothing is written.
   */
  lemma OutcomeExact(ss: seq<Setting>, g: Globbing, p: Path)
    ensures var log := Writes(ss, ss, g);
            && (forall i :: 0 <= i < |ss| && SetsPlainly(ss, i, p)
                            && (forall j :: i < j < |ss| ==> !SetsPlainly(ss, j, p))
                  ==> LastWrite(log, p) == Some(ss[i].value))
            && ((forall i :: 0 <= i < |ss| ==> !SetsPlainly(ss, i, p)) ==>
                  && ((exists i :: 0 <= i < |ss| && KeepsOff(ss, i, g, p)) ==> LastWrite(log, p) == None)
                  && ((forall i :: 0 <= i < |ss| ==> !KeepsOff(ss, i, g, p)) ==>
                        && (forall i :: 0 <= i < |ss| && SetsByPattern(ss, i, g, p)
                                        && (forall j :: i < j < |ss| ==> !SetsByPattern(ss, j, g, p))
                              ==> LastWrite(log, p) == Some(ss[i].value))
                        && ((forall i :: 0 <= i < |ss| ==> !SetsByPattern(ss, i, g, p)) ==> LastWrite(log, p) == None)))
  {
    hide Writes, LastWrite, SetsPlainly, SetsByPattern, KeepsOff, Explicit, Globbed, Claims, LastOf;
    WritesResolve(ss, g, p);
    forall i | 0 <= i < |ss|
      ensures SetsPlainly(ss, i, p) <==> Explicit(ss[i]) && ss[i].path == p
      ensures SetsByPattern(ss, i, g, p) <==> Globbed(ss[i]) && p in g.expand(ss[i].path)
      ensures KeepsOff(ss, i, g, p) <==> Claims(ss[i], g, p)
    {
      KindIs(ss, i, g, p);
    }
  }

  lemma KindIs(ss: seq<Setting>, i: nat, g: Globbing, p: Path)
    requires i < |ss|
    ensures SetsPlainly(ss, i, p) <==> Explicit(ss[i]) && ss[i].path == p
    ensures SetsByPattern(ss, i, g, p) <==> Globbed(ss[i]) && p in g.expand(ss[i].path)
    ensures KeepsOff(ss, i, g, p) <==> Claims(ss[i], g, p)
  {
    PlainIs(ss[i].path);
  }

  lemma PlainIs(p: Path)
    ensures Plain(p) <==> !IsGlob(p)
  {
  }

  /** Write number `k` is for setting `i`: it carries all of it, to a path the setting is for. */
  ghost predicate WrittenFor(w: Write, s: Setting, ss: seq<Setting>, g: Globbing) {
    && w.key == s.key && w.value == s.value && w.ignoreFailure == s.ignoreFailure && !s.globExclude
    && if Plain(s.path) then w.path == s.path
       else w.path in g.expand(s.path) && forall j :: 0 <= j < |ss| ==> !KeepsOff(ss, j, g, w.path)
  }

  /** Every write carries the setting it is for, and writes come in the order of their settings. */
  lemma {:induction false} WritesCarry(ss: seq<Setting>, all: seq<Setting>, g: Globbing) returns (of: seq<nat>)
    ensures |of| == |Writes(ss, all, g)|
    ensures forall k :: 0 <= k < |of| ==> of[k] < |ss| && WrittenFor(Writes(ss, all, g)[k], ss[of[k]], all, g)
    ensures forall j, k :: 0 <= j < k < |of| ==> of[j] <= of[k]
    decreases |ss|
  {
    of := [];
    if ss != [] {
      var n := |ss| - 1;
      var before := WritesCarry(ss[..n], all, g);
      var more := WritesOf(ss[n], all, g);
      WritesOfCarry(ss[n], all, g);
      hide WritesOf, WrittenFor;
      of := before + seq(|more|, _ => n);
    }
  }

  lemma WritesOfCarry(s: Setting, all: seq<Setting>, g: Globbing)
    ensures forall k :: 0 <= k < |WritesOf(s, all, g)| ==> WrittenFor(WritesOf(s, all, g)[k], s, all, g)
  {
    PlainIs(s.path);
    if !s.globExclude && IsGlob(s.path) {
      GlobWritesCarry(g.expand(s.path), s, all, g);
    }
  }

  lemma {:induction false} GlobWritesCarry(paths: seq<Path>, s: Setting, all: seq<Setting>, g: Globbing)
    ensures forall k :: 0 <= k < |GlobWrites(paths, s, all, g)| ==>
              var w := GlobWrites(paths, s, all, g)[k];
              && w.key == s.key && w.value == s.value && w.ignoreFailure == s.ignoreFailure && w.path in paths
              && forall j :: 0 <= j < |all| ==> !KeepsOff(all, j, g, w.path)
    decreases |paths|
  {
    if paths != [] {
      var n := |paths| - 1;
      GlobWritesCarry(paths[..n], s, all, g);
      if !Claimed(all, g, paths[n]) {
        forall j | 0 <= j < |all|
          ensures !KeepsOff(all, j, g, paths[n])
        {
          assert !Claims(all[j], g, paths[n]);
        }
      }
    }
  }

  // ----- Independence of the order of explicit and pattern lines --------------------------------

  function Filter(ss: seq<Setting>, keep: Setting -> bool): seq<Setting> {
    if ss == [] then []
    else Filter(ss[..|ss| - 1], keep) + if keep(ss[|ss| - 1]) then [ss[|ss| - 1]] else []
  }

  function Excluding(s: Setting): bool {
    s.globExclude
  }

  lemma {:induction false} FilterLast(ss: seq<Setting>, keep: Setting -> bool, which: Setting -> bool)
    requires forall s: Setting :: which(s) ==> keep(s)
    ensures ValueAt(ss, LastOf(ss, which)) == ValueAt(Filter(ss, keep), LastOf(Filter(ss, keep), which))
    decreases |ss|
  {
    if ss != [] {
      var n := |ss| - 1;
      FilterLast(ss[..n], keep, which);
      var f := Filter(ss, keep);
      if keep(ss[n]) {
        assert f[..|f| - 1] == Filter(ss[..n], keep) && f[|f| - 1] == ss[n];
      } else {
        assert f == Filter(ss[..n], keep);
      }
    }
  }

  lemma {:induction false} FilterMembers(ss: seq<Setting>, keep: Setting -> bool, s: Setting)
    ensures s in Filter(ss, keep) <==> s in ss && keep(s)
    decreases |ss|
  {
    if ss != [] {
      FilterMembers(ss[..|ss| - 1], keep, s);
      assert s in ss <==> s in ss[..|ss| - 1] || s == ss[|ss| - 1];
    }
  }

  lemma ClaimedMembers(ss: seq<Setting>, g: Globbing, p: Path)
    ensures Claimed(ss, g, p) <==> exists s: Setting :: s in ss && Claims(s, g, p)
  {
    if s: Setting :| s in ss && Claims(s, g, p) {
      var i :| 0 <= i < |ss| && ss[i] == s;
      assert Claims(ss[i], g, p);
    }
  }

  /**
   * Only the order among explicit lines and the order among patterns matter: two lists
   * with the same explicit lines, the same patterns and the same excludes, however
   * interleaved, leave the same value in every path.
   */
  lemma OrderIndependent(a: seq<Setting>, b: seq<Setting>, g: Globbing, p: Path)
    requires Filter(a, Explicit) == Filter(b, Explicit)
    requires Filter(a, Globbed) == Filter(b, Globbed)
    requires Filter(a, Excluding) == Filter(b, Excluding)
    ensures LastWrite(Writes(a, a, g), p) == LastWrite(Writes(b, b, g), p)
  {
    WritesResolve(a, g, p);
    WritesResolve(b, g, p);
    var named := (s: Setting) => Explicit(s) && s.path == p;
    var expanded := (s: Setting) => Globbed(s) && p in g.expand(s.path);
    FilterLast(a, Explicit, named);
    FilterLast(b, Explicit, named);
    FilterLast(a, Globbed, expanded);
    FilterLast(b, Globbed, expanded);
    SameMembers(a, b);
    ClaimedMembers(a, g, p);
    ClaimedMembers(b, g, p);
  }

  lemma SameMembers(a: seq<Setting>, b: seq<Setting>)
    requires Filter(a, Explicit) == Filter(b, Explicit)
    requires Filter(a, Globbed) == Filter(b, Globbed)
    requires Filter(a, Excluding) == Filter(b, Excluding)
    ensures forall s: Setting :: s in a <==> s in b
  {
    forall s: Setting
      ensures s in a <==> s in b
    {
      var keep := if s.globExclude then Excluding else if IsGlob(s.path) then Globbed else Explicit;
      FilterMembers(a, keep, s);
      FilterMembers(b, keep, s);
    }
  }

  // ----- The list and its walk -------------------------------------------------------------------

  class Node {
    const setting: Setting
    var next: Node?

    constructor (setting: Setting)
      ensures this.setting == setting && next == null
    {
      this.setting := setting;
      next := null;
    }
  }

  /** Node number `i`, or NULL past the end. */
  ghost function At(list: seq<Node>, i: nat): Node? {
    if i < |list| then list[i] else null
  }

  ghost function SettingsOf(list: seq<Node>): (r: seq<Setting>)
    ensures |r| == |list| && forall i :: 0 <= i < |r| ==> r[i] == list[i].setting
  {
    seq(|list|, i requires 0 <= i < |list| => list[i].setting)
  }

  class SettingList {
    var head: Node?
    var tail: Node?
    ghost var list: seq<Node>
    ghost var Repr: set<Node>

    ghost predicate Valid()
      reads this, Repr
    {
      && (forall i :: 0 <= i < |list| ==> list[i] in Repr)
      && head == At(list, 0) && tail == (if list == [] then null else list[|list| - 1])
      && (forall i: nat :: i < |list| ==> list[i].next == At(list, i + 1))
      && (forall i, j :: 0 <= i < j < |list| ==> list[i] != list[j])
    }

    ghost function Settings(): seq<Setting>
      reads this
    {
      SettingsOf(list)
    }

    constructor ()
      ensures Valid() && Settings() == [] && Repr == {}
    {
      head, tail, list, Repr := null, null, [], {};
    }

    /** settinglist_add */
    method Add(s: Node)
      requires Valid() && s !in Repr && s.next == null
      modifies this, Repr`next
      ensures Valid() && Repr == old(Repr) + {s} && Settings() == old(Settings()) + [s.setting]
    {
      if head == null {
        head := s;
      }
      if tail != null {
        tail.next := s;
      }
      tail := s;
      list := list + [s];
      Repr := Repr + {s};
    }

    /** None of the first `i` entries claims the path. */
    ghost predicate NoneBefore(g: Globbing, path: Path, i: nat)
      reads this
    {
      i <= |list| && forall k :: 0 <= k < i ==> !Claims(list[k].setting, g, path)
    }

    /** The node is the first that claims the path. */
    ghost predicate FirstClaim(g: Globbing, path: Path, node: Node)
      reads this
    {
      exists i :: 0 <= i < |list| && node == list[i] && Claims(node.setting, g, path) && NoneBefore(g, path, i)
    }

    lemma ClaimFound(g: Globbing, path: Path, i: nat)
      requires i < |list| && NoneBefore(g, path, i) && Claims(list[i].setting, g, path)
      ensures Claimed(Settings(), g, path) && FirstClaim(g, path, list[i])
    {
      assert Settings()[i] == list[i].setting;
    }

    lemma NotClaimed(g: Globbing, path: Path)
      requires NoneBefore(g, path, |list|)
      ensures !Claimed(Settings(), g, path)
    {
    }

    lemma NodeAfter(i: nat)
      requires Valid()
      ensures head == At(list, 0) && (i < |list| ==> list[i].next == At(list, i + 1))
    {
    }

    lemma NoneNext(g: Globbing, path: Path, i: nat)
      requires NoneBefore(g, path, i) && i < |list| && !Claims(list[i].setting, g, path)
      ensures NoneBefore(g, path, i + 1)
    {
    }

    /** settinglist_findpath: the first entry that names the path or excludes it. */
    method FindPath(g: Globbing, path: Path) returns (node: Node?)
      requires Valid()
      ensures node != null <==> Claimed(Settings(), g, path)
      ensures node != null ==> FirstClaim(g, path, node)
    {
      node := head;
      ghost var i: nat := 0;
      NodeAfter(0);
      assert NoneBefore(g, path, 0);
      hide Valid, NoneBefore, FirstClaim, Claimed, SettingsOf;
      while node != null
        invariant i <= |list| && node == At(list, i) && NoneBefore(g, path, i)
        decreases |list| - i
      {
        if node.setting.path == path || (node.setting.globExclude && g.fnmatch(node.setting.path, path)) {
          ClaimFound(g, path, i);
          return;
        }
        NoneNext(g, path, i);
        NodeAfter(i);
        node := node.next;
        i := i + 1;
      }
      NotClaimed(g, path);
    }

    /** One path of a pattern's expansion: override or exclude it, or write it, as write number `k`. */
    method WritePath(g: Globbing, s: Setting, path: Path, fails: (nat, Write) -> bool, k: nat)
      returns (log: seq<Write>, rc: bool)
      requires Valid()
      ensures log == (if Claimed(Settings(), g, path) then [] else [WriteOf(s, path)]) && rc == AnyFails(log, fails, k)
    {
      log, rc := [], false;
      var node := FindPath(g, path);
      if node == null {
        var w := WriteOf(s, path);
        FailsOne(w, fails, k);
        log, rc := [w], fails(k, w);
      }
    }

    /** The inner loop of write_setting_list: one pattern's expansion, from write number `k` on. */
    method WriteExpanded(g: Globbing, s: Setting, fails: (nat, Write) -> bool, k: nat)
      returns (log: seq<Write>, rc: bool)
      requires Valid()
      ensures log == GlobWrites(g.expand(s.path), s, Settings(), g) && rc == AnyFails(log, fails, k)
    {
      var paths := g.expand(s.path);
      log, rc := [], false;
      var i := 0;
      hide *;
      GlobWritesEnds(paths, s, Settings(), g);
      NoneFails(fails, k);
      while i < |paths|
        invariant 0 <= i <= |paths| && log == GlobWrites(paths[..i], s, Settings(), g)
        invariant rc == AnyFails(log, fails, k)
      {
        var more, failed := WritePath(g, s, paths[i], fails, k + |log|);
        GlobWritesNext(paths, i, s, Settings(), g);
        FailsConcat(log, more, fails, k);
        log, rc := log + more, rc || failed;
        i := i + 1;
      }
    }

    /** One turn of write_setting_list. */
    method WriteOne(g: Globbing, s: Setting, fails: (nat, Write) -> bool, k: nat) returns (log: seq<Write>, rc: bool)
      requires Valid()
      ensures log == WritesOf(s, Settings(), g) && rc == AnyFails(log, fails, k)
    {
      log, rc := [], false;
      if s.globExclude {
        return;
      }
      if IsGlob(s.path) {
        log, rc := WriteExpanded(g, s, fails, k);
      } else {
        var w := WriteOf(s, s.path);
        FailsOne(w, fails, k);
        log, rc := [w], fails(k, w);
      }
    }

    /**
     * write_setting_list: the calls of WriteSetting, in order, and whether any of them
     * failed. A failing call does not keep the others from being made. `fails` says of call
     * number `i` whether it fails, so that equal calls may answer differently.
     */
    method WriteSettingList(g: Globbing, fails: (nat, Write) -> bool) returns (log: seq<Write>, rc: bool)
      requires Valid()
      ensures log == Writes(Settings(), Settings(), g)
      ensures forall p :: LastWrite(log, p) == Resolve(Settings(), g, p)
      ensures rc <==> exists i :: 0 <= i < |log| && fails(i, log[i])
    {
      hide Resolve, LastWrite, Claimed, Writes, WritesOf, AnyFails;
      log, rc := [], false;
      var node := head;
      ghost var i: nat := 0;
      ghost var ss := Settings();
      WritesEnds(ss, g);
      NoneFails(fails, 0);
      while node != null
        invariant i <= |list| && node == At(list, i)
        invariant log == Writes(ss[..i], ss, g) && rc == AnyFails(log, fails, 0)
        decreases |list| - i
      {
        WritesNext(ss, i, g);
        var more, failed := WriteOne(g, node.setting, fails, |log|);
        FailsConcat(log, more, fails, 0);
        log, rc := log + more, rc || failed;
        node := node.next;
        i := i + 1;
      }
      AnyFailsIs(log, fails);
      forall p
        ensures LastWrite(log, p) == Resolve(ss, g, p)
      {
        WritesResolve(ss, g, p);
      }
    }
  }

  /** Does one of these writes fail, the first of them being number `k`. */
  predicate AnyFails(log: seq<Write>, fails: (nat, Write) -> bool, k: nat) {
    exists i :: 0 <= i < |log| && fails(k + i, log[i])
  }

  lemma AnyFailsIs(log: seq<Write>, fails: (nat, Write) -> bool)
    ensures AnyFails(log, fails, 0) <==> exists i :: 0 <= i < |log| && fails(i, log[i])
  {
    if i :| 0 <= i < |log| && fails(i, log[i]) {
      assert fails(0 + i, log[i]);
    }
  }

  lemma NoneFails(fails: (nat, Write) -> bool, k: nat)
    ensures !AnyFails([], fails, k)
  {
  }

  lemma FailsOne(w: Write, fails: (nat, Write) -> bool, k: nat)
    ensures AnyFails([w], fails, k) <==> fails(k, w)
  {
    assert fails(k, w) ==> fails(k + 0, [w][0]);
  }

  lemma FailsConcat(a: seq<Write>, b: seq<Write>, fails: (nat, Write) -> bool, k: nat)
    ensures AnyFails(a + b, fails, k) <==> AnyFails(a, fails, k) || AnyFails(b, fails, k + |a|)
  {
    if i :| 0 <= i < |a| && fails(k + i, a[i]) {
      assert fails(k + i, (a + b)[i]);
    }
    if i :| 0 <= i < |b| && fails(k + |a| + i, b[i]) {
      assert fails(k + (|a| + i), (a + b)[|a| + i]);
    }
    if i :| 0 <= i < |a + b| && fails(k + i, (a + b)[i]) {
      if i < |a| {
        assert fails(k + i, a[i]);
      } else {
        assert fails(k + |a| + (i - |a|), b[i - |a|]);
      }
    }
  }
}
