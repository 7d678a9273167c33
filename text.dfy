/** The small `Option` datatype the pattern matchers return. */
module Options {
  datatype Option<+T> = None | Some(value: T)
}

/**
 * The pieces of Python's `str` and `re` that the documentation generator
 * relies on: whitespace as `str.isspace` and `\s` see it, `str.strip`,
 * `str.startswith`/`endswith`, `str.join`, `str.splitlines`, and the
 * multi-line anchors `^` and `$`.
 */
module Text {

  /** `str.isspace()` for one character; in a `str` pattern `\s` matches exactly these. */
  predicate IsSpace(c: char) {
    ('\t' <= c <= '\r') || ('\U{1C}' <= c <= ' ') || c == '\U{85}' || c == '\U{A0}'
    || c == '\U{1680}' || ('\U{2000}' <= c <= '\U{200A}') || c == '\U{2028}' || c == '\U{2029}'
    || c == '\U{202F}' || c == '\U{205F}' || c == '\U{3000}'
  }

  /** The characters at which `str.splitlines()` ends a line. */
  predicate IsLineBoundary(c: char) {
    ('\n' <= c <= '\r') || ('\U{1C}' <= c <= '\U{1E}') || c == '\U{85}' || c == '\U{2028}' || c == '\U{2029}'
  }

  /** Every character of `s[i..j]` is whitespace. */
  predicate AllSpace(s: string, i: nat, j: nat)
    requires i <= j <= |s|
  {
    forall k :: i <= k < j ==> IsSpace(s[k])
  }

  predicate NoLineBoundary(line: string) {
    forall k :: 0 <= k < |line| ==> !IsLineBoundary(line[k])
  }

  predicate StartsWith(s: string, prefix: string) {
    |prefix| <= |s| && s[..|prefix|] == prefix
  }

  predicate EndsWith(s: string, suffix: string) {
    |suffix| <= |s| && s[|s| - |suffix|..] == suffix
  }

  /** The end of `s[..j]` once its trailing whitespace is dropped. */
  function LastNonSpace(s: string, j: nat): (b: nat)
    requires j <= |s|
    ensures b <= j && AllSpace(s, b, j)
    ensures b == 0 || !IsSpace(s[b - 1])
  {
    if j > 0 && IsSpace(s[j - 1]) then LastNonSpace(s, j - 1) else j
  }

  /** Where `str.rstrip()` cuts `s`. */
  function TrimmedEnd(s: string): (b: nat)
    ensures b <= |s| && AllSpace(s, b, |s|)
    ensures b == 0 || !IsSpace(s[b - 1])
  {
    LastNonSpace(s, |s|)
  }

  /** The two facts above single out one position. */
  lemma TrimmedEndUnique(s: string, b: nat)
    requires b <= |s| && AllSpace(s, b, |s|)
    requires b == 0 || !IsSpace(s[b - 1])
    ensures TrimmedEnd(s) == b
  {
  }

  /** `str.rstrip()` */
  function TrimEnd(s: string): string {
    s[..TrimmedEnd(s)]
  }

  /** `str.strip()`: the text between the leading and the trailing whitespace. */
  function Strip(s: string): string {
    var a := SpaceRun(s, 0);
    var b := TrimmedEnd(s);
    if a < b then s[a..b] else ""
  }

  /** What `str.strip()` leaves: no surrounding whitespace, and nothing only if `s` is all whitespace. */
  lemma StripShape(s: string)
    ensures Strip(s) != [] ==> !IsSpace(Strip(s)[0]) && !IsSpace(Strip(s)[|Strip(s)| - 1])
    ensures Strip(s) == [] <==> AllSpace(s, 0, |s|)
  {
    var a := SpaceRun(s, 0);
    var b := TrimmedEnd(s);
    if a < |s| {
      assert !IsSpace(s[a]);
      assert a < b;
    }
  }

  /** Stripping a string that starts with a non-space character only trims its end. */
  lemma StripKeepsStart(s: string)
    requires s != [] && !IsSpace(s[0])
    ensures Strip(s) == TrimEnd(s) && Strip(s) != [] && Strip(s)[0] == s[0]
  {
    assert SpaceRun(s, 0) == 0;
    assert TrimmedEnd(s) > 0;
  }

  /** A string without surrounding whitespace is its own stripped form. */
  lemma StripTrimmed(s: string)
    requires s == [] || (!IsSpace(s[0]) && !IsSpace(s[|s| - 1]))
    ensures Strip(s) == s
  {
    if s != [] {
      assert SpaceRun(s, 0) == 0;
      TrimmedEndUnique(s, |s|);
    }
  }

  /** Trailing whitespace never survives `rstrip`. */
  lemma TrimEndDropsSpace(s: string, tail: string)
    requires AllSpace(tail, 0, |tail|)
    ensures TrimEnd(s + tail) == TrimEnd(s)
  {
    var b := TrimmedEnd(s);
    var st := s + tail;
    assert forall k :: 0 <= k < |s| ==> st[k] == s[k];
    assert forall k :: |s| <= k < |st| ==> st[k] == tail[k - |s|];
    TrimmedEndUnique(st, b);
    assert st[..b] == s[..b];
  }

  /** `strip` of a slice that starts with a non-space character: a prefix of it that ends with one, followed only by whitespace. */
  lemma StripOfSlice(s: string, i: nat, j: nat)
    requires i < j <= |s| && !IsSpace(s[i])
    ensures var r := Strip(s[i..j]);
      r != [] && i + |r| <= j && r == s[i..i + |r|] && AllSpace(s, i + |r|, j) && !IsSpace(r[|r| - 1])
  {
    var text := s[i..j];
    assert text[0] == s[i];
    StripKeepsStart(text);
    assert forall k :: i <= k < j ==> s[k] == text[k - i];
  }

  /** `strip` of a slice that starts with a non-space character keeps every non-space character of it. */
  lemma StripKeeps(s: string, i: nat, j: nat, k: nat)
    requires i <= k < j <= |s| && !IsSpace(s[i]) && !IsSpace(s[k])
    ensures k < i + |Strip(s[i..j])|
  {
    var text := s[i..j];
    assert text[0] == s[i];
    StripKeepsStart(text);
    assert text[k - i] == s[k];
  }

  /** Stripping a non-empty text without surrounding whitespace, followed by whitespace, gives the text back. */
  lemma StripBeforeSpace(text: string, tail: string)
    requires text != [] && !IsSpace(text[0]) && !IsSpace(text[|text| - 1]) && AllSpace(tail, 0, |tail|)
    ensures Strip(text + tail) == text
  {
    var x := text + tail;
    assert x[0] == text[0];
    StripKeepsStart(x);
    TrimEndDropsSpace(text, tail);
    TrimmedEndUnique(text, |text|);
  }

  /** One leading whitespace character before a text without surrounding whitespace is stripped away. */
  lemma StripLeadingSpace(c: char, t: string)
    requires IsSpace(c) && t != [] && !IsSpace(t[0]) && !IsSpace(t[|t| - 1])
    ensures Strip([c] + t) == t
  {
    var x := [c] + t;
    assert x[1] == t[0];
    SpaceRunEnds(x, 0, 1);
    assert x[|x| - 1] == t[|t| - 1];
    TrimmedEndUnique(x, |x|);
    assert x[1..|x|] == t;
  }

  /** Slices of a four-part concatenation. */
  lemma ConcatSlices(a: string, b: string, c: string, d: string)
    ensures (a + b + c + d)[|a|..|a| + |b|] == b
    ensures (a + b + c + d)[..|a| + |b| + |c|] == a + b + c
  {
    var s := a + b + c + d;
    assert s[..|a| + |b| + |c|] == a + b + c;
    assert (a + b + c)[|a|..|a| + |b|] == b;
  }

  /** `sep.join(parts)` */
  function Join(parts: seq<string>, sep: string): string {
    if |parts| == 0 then ""
    else if |parts| == 1 then parts[0]
    else parts[0] + sep + Join(parts[1..], sep)
  }

  /** Joining two parts puts the separator between them. */
  lemma JoinTwo(a: string, b: string, sep: string)
    ensures Join([a, b], sep) == a + sep + b
  {
    assert [a, b][1..] == [b];
  }

  /** Joining three parts puts the separator between each two. */
  lemma JoinThree(a: string, b: string, c: string, sep: string)
    ensures Join([a, b, c], sep) == a + sep + b + sep + c
  {
    assert [a, b, c][1..] == [b, c];
    assert [b, c][1..] == [c];
    assert Join([b, c], sep) == b + sep + c;
    assert a + sep + (b + sep + c) == a + sep + b + sep + c;
  }

  /** The first line boundary at or after `i`, or `|s|` if there is none. */
  function NextBoundary(s: string, i: nat): (r: nat)
    requires i <= |s|
    ensures i <= r <= |s|
    ensures forall k :: i <= k < r ==> !IsLineBoundary(s[k])
    ensures r < |s| ==> IsLineBoundary(s[r])
    decreases |s| - i
  {
    if i == |s| || IsLineBoundary(s[i]) then i else NextBoundary(s, i + 1)
  }

  /**
   * `str.splitlines()`: the lines of `s` without their terminators; `\r\n`
   * ends one line, and a final terminator does not start an empty line.
   */
  function SplitLines(s: string): (lines: seq<string>)
    ensures forall i :: 0 <= i < |lines| ==> NoLineBoundary(lines[i])
    decreases |s|
  {
    if s == [] then []
    else
      var i := NextBoundary(s, 0);
      if i == |s| then [s]
      else
        var next := if s[i] == '\r' && i + 1 < |s| && s[i + 1] == '\n' then i + 2 else i + 1;
        [s[..i]] + SplitLines(s[next..])
  }

  /** Two texts without line boundaries make one without. */
  lemma NoLineBoundaryAppend(a: string, b: string)
    requires NoLineBoundary(a) && NoLineBoundary(b)
    ensures NoLineBoundary(a + b)
  {
    var s := a + b;
    forall k | 0 <= k < |s| ensures !IsLineBoundary(s[k]) {
      if k >= |a| {
        assert s[k] == b[k - |a|];
      }
    }
  }

  /** A line without boundaries followed by `\n` is split off as one line. */
  lemma SplitLinesFirst(line: string, rest: string)
    requires NoLineBoundary(line)
    ensures SplitLines(line + "\n" + rest) == [line] + SplitLines(rest)
  {
    var s := line + "\n" + rest;
    assert forall k :: 0 <= k < |line| ==> s[k] == line[k];
    assert s[|line|] == '\n';
    assert NextBoundary(s, 0) == |line|;
    assert s[..|line|] == line;
    assert s[|line| + 1..] == rest;
  }

  /** A non-empty line without boundaries is a single line. */
  lemma SplitLinesSingle(line: string)
    requires line != [] && NoLineBoundary(line)
    ensures SplitLines(line) == [line]
  {
    assert NextBoundary(line, 0) == |line|;
  }

  /** No whitespace run starting at `i` reaches past the one `SpaceRun` measures. */
  lemma SpaceRunMaximal(s: string, i: nat, j: nat)
    requires i <= j <= |s| && AllSpace(s, i, j)
    ensures j <= i + SpaceRun(s, i)
  {
  }

  /** A whitespace run ended by another character is the one `SpaceRun` measures. */
  lemma SpaceRunEnds(s: string, i: nat, j: nat)
    requires i <= j < |s| && AllSpace(s, i, j) && !IsSpace(s[j])
    ensures i + SpaceRun(s, i) == j
  {
    SpaceRunMaximal(s, i, j);
  }

  /** `^` under `re.MULTILINE`: the start of the text or just after a `\n`. */
  predicate LineStart(s: string, p: nat) {
    p <= |s| && (p == 0 || s[p - 1] == '\n')
  }

  /** `$` under `re.MULTILINE`: the end of the text or just before a `\n`. */
  predicate LineEnd(s: string, e: nat) {
    e == |s| || (e < |s| && s[e] == '\n')
  }

  /** Length of the run of whitespace starting at `i` (what a greedy `\s*` takes first). */
  function SpaceRun(s: string, i: nat): (n: nat)
    requires i <= |s|
    ensures i + n <= |s| && AllSpace(s, i, i + n)
    ensures i + n == |s| || !IsSpace(s[i + n])
    decreases |s| - i
  {
    if i < |s| && IsSpace(s[i]) then 1 + SpaceRun(s, i + 1) else 0
  }
}
