/**
 * The few operations of Python's `str` and text files that the record codec
 * relies on: `strip()`, `startswith`, `split(sep)`, `sep.join`, `s[:-1]` and
 * reading a text file line by line with universal newlines.
 */
module Text {
  import opened Wrappers

  /** Python's `str.isspace()` for one character. */
  predicate IsSpace(c: char) {
    var n := c as int;
    (9 <= n <= 13) || (28 <= n <= 32) || n == 0x85 || n == 0xA0 || n == 0x1680
    || (0x2000 <= n <= 0x200A) || n == 0x2028 || n == 0x2029 || n == 0x202F
    || n == 0x205F || n == 0x3000
  }

  /** The length of `s[..n]` without its trailing white space. */
  function TrimEnd(s: string, n: nat): (m: nat)
    requires n <= |s|
    ensures m <= n && (m == 0 || !IsSpace(s[m - 1]))
  {
    if n == 0 || !IsSpace(s[n - 1]) then n else TrimEnd(s, n - 1)
  }

  /** `s.rstrip()` */
  function StripEnd(s: string): string {
    s[..TrimEnd(s, |s|)]
  }

  /** `TrimEnd` stops at the last non-space character: what it drops is white space. */
  lemma {:induction false} TrimEndSpaces(s: string, m: nat, n: nat)
    requires m <= n <= |s|
    requires m == 0 || !IsSpace(s[m - 1])
    ensures (forall j | m <= j < n :: IsSpace(s[j])) <==> TrimEnd(s, n) == m
    decreases n
  {
    if n > m {
      if IsSpace(s[n - 1]) {
        TrimEndSpaces(s, m, n - 1);
      } else {
        assert TrimEnd(s, n) == n;
      }
    }
  }

  /** `rstrip` drops exactly the trailing white space `w`. */
  lemma StripEndSpaces(x: string, w: string)
    requires x == [] || !IsSpace(x[|x| - 1])
    requires forall j | 0 <= j < |w| :: IsSpace(w[j])
    ensures StripEnd(x + w) == x
  {
    var s := x + w;
    forall j | |x| <= j < |s| ensures IsSpace(s[j]) {
      assert s[j] == w[j - |x|];
    }
    TrimEndSpaces(s, |x|, |s|);
    assert s[..|x|] == x;
  }

  /** The index of the first non-space character of `s` at or after `i`. */
  function TrimStart(s: string, i: nat): (k: nat)
    requires i <= |s|
    ensures i <= k <= |s| && (k == |s| || !IsSpace(s[k]))
    decreases |s| - i
  {
    if i == |s| || !IsSpace(s[i]) then i else TrimStart(s, i + 1)
  }

  /** `s.lstrip()` */
  function StripStart(s: string): string {
    s[TrimStart(s, 0)..]
  }

  /** What `lstrip` drops is white space. */
  lemma {:induction false} TrimStartSpaces(s: string, i: nat)
    requires i <= |s|
    ensures forall j | i <= j < TrimStart(s, i) :: IsSpace(s[j])
    decreases |s| - i
  {
    if i < |s| && IsSpace(s[i]) {
      TrimStartSpaces(s, i + 1);
    }
  }

  /** `s.strip()` */
  function Strip(s: string): string {
    StripStart(StripEnd(s))
  }

  /** A string that starts and ends with a non-space character is its own `strip()`. */
  lemma StripUnchanged(s: string)
    requires s != [] && !IsSpace(s[0]) && !IsSpace(s[|s| - 1])
    ensures Strip(s) == s
  {
    assert TrimEnd(s, |s|) == |s|;
    assert s[..|s|] == s;
    assert TrimStart(s, 0) == 0;
  }

  /** From position `t` on, the characters of `sep` match those of `s` from index `j + t`. */
  predicate MatchesFrom(s: string, sep: string, j: nat, t: nat)
    requires j + |sep| <= |s| && t <= |sep|
    decreases |sep| - t
  {
    t == |sep| || (s[j + t] == sep[t] && MatchesFrom(s, sep, j, t + 1))
  }

  /** `sep` occurs in `s` at index `j`. */
  predicate MatchAt(s: string, sep: string, j: nat) {
    j + |sep| <= |s| && MatchesFrom(s, sep, j, 0)
  }

  lemma {:induction false} MatchesFromSlice(s: string, sep: string, j: nat, t: nat)
    requires j + |sep| <= |s| && t <= |sep|
    ensures MatchesFrom(s, sep, j, t) <==> s[j + t..j + |sep|] == sep[t..]
    decreases |sep| - t
  {
    if t < |sep| {
      MatchesFromSlice(s, sep, j, t + 1);
      assert s[j + t..j + |sep|] == [s[j + t]] + s[j + t + 1..j + |sep|];
      assert sep[t..] == [sep[t]] + sep[t + 1..];
    }
  }

  /** An occurrence is a slice equal to the separator. */
  lemma MatchAtSlice(s: string, sep: string, j: nat)
    ensures MatchAt(s, sep, j) <==> j + |sep| <= |s| && s[j..j + |sep|] == sep
  {
    if j + |sep| <= |s| {
      MatchesFromSlice(s, sep, j, 0);
    }
  }

  ghost predicate Contains(s: string, sep: string) {
    exists j: nat :: MatchAt(s, sep, j)
  }

  /** `s.find(sep, i)`: the first occurrence of `sep` at or after index `i`. */
  function FindFrom(s: string, sep: string, i: nat): (r: Option<nat>)
    requires i <= |s|
    ensures r.Some? ==> i <= r.value && r.value + |sep| <= |s| && MatchAt(s, sep, r.value)
    decreases |s| - i
  {
    if MatchAt(s, sep, i) then Some(i)
    else if i == |s| then None
    else FindFrom(s, sep, i + 1)
  }

  /** `find` gives the first occurrence, and `None` only when there is none. */
  lemma {:induction false} FindFromFirst(s: string, sep: string, i: nat)
    requires i <= |s|
    ensures FindFrom(s, sep, i).Some? ==> forall j: nat | i <= j < FindFrom(s, sep, i).value :: !MatchAt(s, sep, j)
    ensures FindFrom(s, sep, i).None? ==> forall j: nat | i <= j :: !MatchAt(s, sep, j)
    decreases |s| - i
  {
    if !MatchAt(s, sep, i) && i < |s| {
      FindFromFirst(s, sep, i + 1);
    }
  }

  /** The pieces of `s[i..].split(sep)`, cut at the occurrences of `sep` in `s`. */
  function SplitFrom(s: string, sep: string, i: nat): (r: seq<string>)
    requires sep != [] && i <= |s|
    ensures |r| >= 1
    decreases |s| - i
  {
    match FindFrom(s, sep, i)
    case None => [s[i..]]
    case Some(j) => [s[i..j]] + SplitFrom(s, sep, j + |sep|)
  }

  /** `s.split(sep)` for a non-empty separator. */
  function Split(s: string, sep: string): (r: seq<string>)
    requires sep != []
    ensures |r| >= 1
  {
    SplitFrom(s, sep, 0)
  }

  /** `sep.join(parts)` */
  function Join(parts: seq<string>, sep: string): string {
    if |parts| == 0 then ""
    else if |parts| == 1 then parts[0]
    else parts[0] + sep + Join(parts[1..], sep)
  }

  lemma {:induction false} JoinSplitFrom(s: string, sep: string, i: nat)
    requires sep != [] && i <= |s|
    ensures Join(SplitFrom(s, sep, i), sep) == s[i..]
    decreases |s| - i
  {
    match FindFrom(s, sep, i)
    case None =>
    case Some(j) =>
      var tail := SplitFrom(s, sep, j + |sep|);
      assert SplitFrom(s, sep, i) == [s[i..j]] + tail;
      assert Join([s[i..j]] + tail, sep) == s[i..j] + sep + Join(tail, sep);
      JoinSplitFrom(s, sep, j + |sep|);
      MatchAtSlice(s, sep, j);
      assert s[i..] == s[i..j] + s[j..j + |sep|] + s[j + |sep|..];
  }

  /** Joining the pieces of a split with the same separator gives the string back. */
  lemma JoinSplit(s: string, sep: string)
    requires sep != []
    ensures Join(Split(s, sep), sep) == s
  {
    JoinSplitFrom(s, sep, 0);
  }

  /** For a two-character separator, an occurrence is two matching characters. */
  lemma MatchAtPair(s: string, sep: string, j: nat)
    requires |sep| == 2
    ensures MatchAt(s, sep, j) <==> j + 2 <= |s| && s[j] == sep[0] && s[j + 1] == sep[1]
  {
    MatchAtSlice(s, sep, j);
    if j + 2 <= |s| {
      assert s[j..j + 2] == [s[j], s[j + 1]];
      assert sep == [sep[0], sep[1]];
    }
  }

  /** A two-character separator with distinct characters occurs in `x + y` only inside `x`, inside `y`,
      or across the seam. */
  lemma NotContainsConcat(x: string, y: string, sep: string)
    requires |sep| == 2
    requires !Contains(x, sep) && !Contains(y, sep)
    requires !(x != [] && y != [] && x[|x| - 1] == sep[0] && y[0] == sep[1])
    ensures !Contains(x + y, sep)
  {
    var s := x + y;
    forall j: nat | MatchAt(s, sep, j) ensures false {
      MatchAtPair(s, sep, j);
      if j + 2 <= |x| {
        MatchAtPair(x, sep, j);
      } else if j >= |x| {
        MatchAtPair(y, sep, j - |x|);
      }
    }
  }

  /** A string without the first character of a two-character separator does not contain it. */
  lemma NoFirstCharNoMatch(s: string, sep: string)
    requires |sep| == 2 && forall j | 0 <= j < |s| :: s[j] != sep[0]
    ensures !Contains(s, sep)
  {
    forall j: nat | MatchAt(s, sep, j) ensures false {
      MatchAtPair(s, sep, j);
    }
  }

  lemma TooShortNoMatch(s: string, sep: string)
    requires |s| < |sep|
    ensures !Contains(s, sep)
  {
  }

  /** Occurrences in `p + b` at or after `|p|` are the occurrences in `b`, shifted. */
  lemma {:induction false} FindFromShift(p: string, b: string, sep: string, k: nat)
    requires k <= |b|
    ensures var f := FindFrom(p + b, sep, |p| + k);
      var g := FindFrom(b, sep, k);
      f.None? == g.None? && (f.Some? ==> f.value == |p| + g.value)
    decreases |b| - k
  {
    MatchAtSlice(p + b, sep, |p| + k);
    MatchAtSlice(b, sep, k);
    if k + |sep| <= |b| {
      assert (p + b)[|p| + k..|p| + k + |sep|] == b[k..k + |sep|];
    }
    if !MatchAt(b, sep, k) && k < |b| {
      FindFromShift(p, b, sep, k + 1);
    }
  }

  lemma SliceShift(p: string, b: string, i: nat, j: nat)
    requires i <= j <= |b|
    ensures (p + b)[|p| + i..|p| + j] == b[i..j] && (p + b)[|p| + i..] == b[i..]
  {
  }

  /** One step of `SplitFrom`, once `find` is known. */
  lemma SplitFromStep(s: string, sep: string, i: nat)
    requires sep != [] && i <= |s|
    ensures FindFrom(s, sep, i).None? ==> SplitFrom(s, sep, i) == [s[i..]]
    ensures FindFrom(s, sep, i).Some? ==> var j := FindFrom(s, sep, i).value;
      SplitFrom(s, sep, i) == [s[i..j]] + SplitFrom(s, sep, j + |sep|)
  {
  }

  /** Splitting `p + b` from `|p|` on is splitting `b`. */
  lemma {:induction false} SplitFromShift(p: string, b: string, sep: string, k: nat)
    requires sep != [] && k <= |b|
    ensures SplitFrom(p + b, sep, |p| + k) == SplitFrom(b, sep, k)
    decreases |b| - k
  {
    var s := p + b;
    FindFromShift(p, b, sep, k);
    SplitFromStep(s, sep, |p| + k);
    SplitFromStep(b, sep, k);
    var g := FindFrom(b, sep, k);
    if g.None? {
      SliceShift(p, b, k, k);
    } else {
      var j := g.value;
      assert FindFrom(s, sep, |p| + k) == Some(|p| + j);
      SliceShift(p, b, k, j);
      var head := b[k..j];
      var rest := SplitFrom(b, sep, j + |sep|);
      assert SplitFrom(s, sep, |p| + (j + |sep|)) == rest by {
        SplitFromShift(p, b, sep, j + |sep|);
      }
      assert SplitFrom(s, sep, |p| + k) == [head] + SplitFrom(s, sep, |p| + j + |sep|);
      assert SplitFrom(b, sep, k) == [head] + rest;
    }
  }

  /** The first piece of `split` on `a + sep + b` is `a`, when `a` holds no `sep`. */
  lemma SplitAfterHead(a: string, b: string, sep: string)
    requires |sep| == 2 && sep[0] != sep[1]
    requires !Contains(a, sep)
    ensures Split(a + sep + b, sep) == [a] + Split(b, sep)
  {
    var s := a + sep + b;
    assert MatchAt(s, sep, |a|) by {
      MatchAtPair(s, sep, |a|);
    }
    forall j: nat | j < |a| ensures !MatchAt(s, sep, j) {
      MatchAtPair(s, sep, j);
      if j + 2 <= |a| {
        MatchAtPair(a, sep, j);
      }
    }
    FindFromFirst(s, sep, 0);
    assert FindFrom(s, sep, 0) == Some(|a|);
    assert s[0..|a|] == a;
    assert s == (a + sep) + b;
    SplitFromShift(a + sep, b, sep, 0);
  }

  lemma SplitWhole(s: string, sep: string)
    requires sep != [] && !Contains(s, sep)
    ensures Split(s, sep) == [s]
  {
    assert s[0..] == s;
  }

  /** Python's `s[:-1]` */
  function DropLast(s: string): (r: string)
    ensures s != [] ==> r + [s[|s| - 1]] == s
    ensures s == [] ==> r == []
  {
    if s == [] then [] else s[..|s| - 1]
  }

  // Text files: writing lines terminated by "\n" and reading them back
  // the way Python's text-mode file iteration does (universal newlines).

  predicate IsLineBreak(c: char) {
    c == '\n' || c == '\r'
  }

  ghost predicate NoLineBreak(s: string) {
    forall j | 0 <= j < |s| :: !IsLineBreak(s[j])
  }

  lemma NoLineBreakConcat(x: string, y: string)
    requires NoLineBreak(x) && NoLineBreak(y)
    ensures NoLineBreak(x + y)
  {
    forall j | 0 <= j < |x + y| ensures !IsLineBreak((x + y)[j]) {
      if j >= |x| {
        assert (x + y)[j] == y[j - |x|];
      }
    }
  }

  /** Index of the first line break at or after `i`, or `|s|` when there is none. */
  function LineEnd(s: string, i: nat): (e: nat)
    requires i <= |s|
    ensures i <= e <= |s| && (e < |s| ==> IsLineBreak(s[e]))
    decreases |s| - i
  {
    if i == |s| || IsLineBreak(s[i]) then i else LineEnd(s, i + 1)
  }

  /** `LineEnd` stops at the first line break. */
  lemma {:induction false} LineEndFirst(s: string, i: nat)
    requires i <= |s|
    ensures forall j | i <= j < LineEnd(s, i) :: !IsLineBreak(s[j])
    decreases |s| - i
  {
    if i < |s| && !IsLineBreak(s[i]) {
      LineEndFirst(s, i + 1);
    }
  }

  /**
   * The lines a Python text-mode file yields, without their terminators:
   * "\r\n", "\r" and "\n" each end a line, and a last line needs no terminator.
   */
  function Lines(text: string): (r: seq<string>)
    decreases |text|
  {
    if text == [] then []
    else
      var e := LineEnd(text, 0);
      if e == |text| then [text]
      else
        var next := if text[e] == '\r' && e + 1 < |text| && text[e + 1] == '\n' then e + 2 else e + 1;
        [text[..e]] + Lines(text[next..])
  }

  /** What a sequence of `file.write(line + "\n")` calls leaves in the file. */
  function JoinLines(lines: seq<string>): string {
    if lines == [] then "" else lines[0] + "\n" + JoinLines(lines[1..])
  }

  /** A line without line breaks, then "\n", then more text: the first line read is that line. */
  lemma LinesCons(l: string, rest: string)
    requires NoLineBreak(l)
    ensures Lines(l + "\n" + rest) == [l] + Lines(rest)
  {
    var text := l + "\n" + rest;
    assert text[|l|] == '\n';
    assert forall j | 0 <= j < |l| :: text[j] == l[j];
    LineEndFirst(text, 0);
    assert LineEnd(text, 0) == |l|;
    assert text[..|l|] == l;
    assert text[|l| + 1..] == rest;
  }

  /** Reading back a file written line by line gives the same lines. */
  lemma {:induction false} LinesJoinLines(lines: seq<string>)
    requires forall k | 0 <= k < |lines| :: NoLineBreak(lines[k])
    ensures Lines(JoinLines(lines)) == lines
  {
    if lines != [] {
      LinesCons(lines[0], JoinLines(lines[1..]));
      LinesJoinLines(lines[1..]);
    }
  }
}
