/**
 * One section of the README (`_extract_section`): the search, under
 * `re.MULTILINE`, for `^##+\s+HEADING\s*$` followed lazily by anything up to
 * the next `^##+\s+` or the end of the text, with the match stripped.
 *
 * The regular expression is modelled by its backtracking order: the leftmost
 * start, the greedy `##+`, the greedy `\s+` given back one character at a
 * time, the greedy `\s*` given back until `$` holds, and the lazy body.
 */
module Section {
  import opened Options
  import opened Text

  /** Length of the run of `#` starting at `i` (what a greedy `#+` takes). */
  function HashRun(s: string, i: nat): (n: nat)
    requires i <= |s|
    ensures i + n <= |s|
    ensures forall k :: i <= k < i + n ==> s[k] == '#'
    ensures i + n == |s| || s[i + n] != '#'
    decreases |s| - i
  {
    if i < |s| && s[i] == '#' then 1 + HashRun(s, i + 1) else 0
  }

  /** The lookahead `^##+\s+`: a line that starts with at least two `#` and then whitespace. */
  predicate HeadingStartAt(s: string, q: nat) {
    LineStart(s, q) && (var n := HashRun(s, q); n >= 2 && q + n < |s| && IsSpace(s[q + n]))
  }

  /** `HEADING\s*$` matched with the heading text at `b` and `$` at `e`. */
  predicate HeadingTail(s: string, heading: string, b: nat, e: nat) {
    b + |heading| <= e <= |s| && s[b..b + |heading|] == heading
    && AllSpace(s, b + |heading|, e) && LineEnd(s, e)
  }

  /**
   * `^##+\s+HEADING\s*$` matched by `s[p..e]`, with the heading text at `b`:
   * a line start, two or more `#`, some whitespace, the heading, optional
   * whitespace and the end of a line.
   */
  predicate HeadingLine(s: string, heading: string, p: nat, b: nat, e: nat) {
    LineStart(s, p)
    && (var n := HashRun(s, p); n >= 2 && p + n < b <= |s| && AllSpace(s, p + n, b))
    && HeadingTail(s, heading, b, e)
  }

  /** The last position in `[lo, hi]` where `$` holds. */
  function LastLineEnd(s: string, lo: nat, hi: nat): (r: Option<nat>)
    requires lo <= hi <= |s|
    ensures r.Some? ==> lo <= r.value <= hi && LineEnd(s, r.value)
    ensures r.Some? ==> forall e: nat :: r.value < e <= hi ==> !LineEnd(s, e)
    ensures r.None? ==> forall e: nat :: lo <= e <= hi ==> !LineEnd(s, e)
    decreases hi - lo
  {
    if LineEnd(s, hi) then Some(hi)
    else if hi == lo then None
    else LastLineEnd(s, lo, hi - 1)
  }

  /** `HEADING\s*$` tried at `b`: the greedy `\s*` gives back characters until `$` holds. */
  function TailEnd(s: string, heading: string, b: nat): (r: Option<nat>)
    requires b <= |s|
    ensures r.Some? ==> HeadingTail(s, heading, b, r.value)
    ensures r.Some? ==> forall e: nat :: HeadingTail(s, heading, b, e) ==> e <= r.value
    ensures r.None? ==> forall e: nat :: !HeadingTail(s, heading, b, e)
  {
    var t := b + |heading|;
    if t <= |s| && s[b..t] == heading then
      var r := LastLineEnd(s, t, t + SpaceRun(s, t));
      assert forall e: nat :: HeadingTail(s, heading, b, e) ==> e <= t + SpaceRun(s, t) by {
        forall e: nat | HeadingTail(s, heading, b, e) ensures e <= t + SpaceRun(s, t) {
          SpaceRunMaximal(s, t, e);
        }
      }
      r
    else
      None
  }

  /** The greedy `\s+` after the hashes at `a`, given back one character at a time from `b` down. */
  function TryGap(s: string, heading: string, a: nat, b: nat): (r: Option<(nat, nat)>)
    requires a <= b <= |s|
    ensures r.Some? ==> a < r.value.0 <= b && HeadingTail(s, heading, r.value.0, r.value.1)
    ensures r.Some? ==> forall e: nat :: HeadingTail(s, heading, r.value.0, e) ==> e <= r.value.1
    ensures r.Some? ==> forall c: nat, e: nat :: r.value.0 < c <= b ==> !HeadingTail(s, heading, c, e)
    ensures r.None? ==> forall c: nat, e: nat :: a < c <= b ==> !HeadingTail(s, heading, c, e)
    decreases b - a
  {
    if b == a then None
    else
      match TailEnd(s, heading, b)
      case Some(e) => Some((b, e))
      case None => TryGap(s, heading, a, b - 1)
  }

  /**
   * The heading line tried at `p`. On success, the heading text position the
   * backtracking reaches first (the largest) and the `$` it settles on (the
   * largest for that text position).
   */
  function MatchAt(s: string, heading: string, p: nat): (r: Option<(nat, nat)>)
    requires p <= |s|
    ensures r.Some? ==> HeadingLine(s, heading, p, r.value.0, r.value.1)
    ensures r.Some? ==> forall b: nat, e: nat :: HeadingLine(s, heading, p, b, e) ==>
      b <= r.value.0 && (b == r.value.0 ==> e <= r.value.1)
    ensures r.None? ==> forall b: nat, e: nat :: !HeadingLine(s, heading, p, b, e)
  {
    if !LineStart(s, p) then None
    else
      var n := HashRun(s, p);
      if n < 2 then None
      else
        var a := p + n;
        var w := SpaceRun(s, a);
        var r := TryGap(s, heading, a, a + w);
        assert forall b: nat, e: nat :: HeadingLine(s, heading, p, b, e) ==> a < b <= a + w by {
          forall b: nat, e: nat | HeadingLine(s, heading, p, b, e) ensures a < b <= a + w {
            SpaceRunMaximal(s, a, b);
          }
        }
        r
  }

  /** `pattern.search` from `p` on: the first start at or after `p` where the heading line matches. */
  function FindFrom(s: string, heading: string, p: nat): (r: Option<(nat, nat, nat)>)
    requires p <= |s|
    ensures r.Some? ==> p <= r.value.0 <= |s| && MatchAt(s, heading, r.value.0) == Some((r.value.1, r.value.2))
    decreases |s| - p
  {
    match MatchAt(s, heading, p)
    case Some((b, e)) => Some((p, b, e))
    case None => if p == |s| then None else FindFrom(s, heading, p + 1)
  }

  /** A heading line at `q` is found by the search from any `p <= q`, at `q` or earlier. */
  lemma FindFromReaches(s: string, heading: string, p: nat, q: nat, b: nat, e: nat)
    requires p <= q && HeadingLine(s, heading, q, b, e)
    ensures FindFrom(s, heading, p).Some? && FindFrom(s, heading, p).value.0 <= q
  {
    assert MatchAt(s, heading, q).Some?;
    FindFromReachesMatch(s, heading, p, q);
  }

  /** The search from `p` stops at the latest at any later position where the heading line matches. */
  lemma {:induction false} FindFromReachesMatch(s: string, heading: string, p: nat, q: nat)
    requires p <= q <= |s| && MatchAt(s, heading, q).Some?
    ensures FindFrom(s, heading, p).Some? && FindFrom(s, heading, p).value.0 <= q
    decreases q - p
  {
    if MatchAt(s, heading, p).None? {
      FindFromReachesMatch(s, heading, p + 1, q);
    }
  }

  /** The lazy `[\s\S]*?` from `e`: the first position where `^##+\s+` or `\Z` holds. */
  function SectionEnd(s: string, e: nat): (t: nat)
    requires e <= |s|
    ensures e <= t <= |s|
    ensures t == |s| || HeadingStartAt(s, t)
    ensures forall q: nat :: e <= q < t ==> !HeadingStartAt(s, q)
    decreases |s| - e
  {
    if e == |s| || HeadingStartAt(s, e) then e else SectionEnd(s, e + 1)
  }

  /** Where a match lies: its start, the heading text, the `$` after it, and the end of the lazy body. */
  datatype SectionMatch = SectionMatch(start: nat, text: nat, lineEnd: nat, end: nat)

  /** `pattern.search(markdown)`, as positions. */
  function FindSection(s: string, heading: string): (r: Option<SectionMatch>)
    ensures r.Some? ==> HeadingLine(s, heading, r.value.start, r.value.text, r.value.lineEnd)
    ensures r.Some? ==> r.value.lineEnd <= r.value.end <= |s|
    ensures r.Some? ==> r.value.end == |s| || HeadingStartAt(s, r.value.end)
    ensures r.Some? ==> forall q: nat :: r.value.lineEnd <= q < r.value.end ==> !HeadingStartAt(s, q)
  {
    match FindFrom(s, heading, 0)
    case None => None
    case Some((p, b, e)) => Some(SectionMatch(p, b, e, SectionEnd(s, e)))
  }

  /**
   * The search finds the leftmost heading line, and there the text position
   * and the `$` that the backtracking reaches first.
   */
  lemma FindSectionFirst(s: string, heading: string, q: nat, b: nat, e: nat)
    requires HeadingLine(s, heading, q, b, e)
    ensures FindSection(s, heading).Some?
    ensures var m := FindSection(s, heading).value;
      m.start <= q && (m.start == q ==> b <= m.text && (b == m.text ==> e <= m.lineEnd))
  {
    FindFromReaches(s, heading, 0, q, b, e);
  }

  /** `_extract_section`: the stripped match, or the empty string when the heading is absent. */
  function ExtractSection(markdown: string, heading: string): string {
    match FindSection(markdown, heading)
    case None => ""
    case Some(m) => Strip(markdown[m.start..m.end])
  }

  /** The section is empty exactly when no heading line matches anywhere. */
  lemma ExtractSectionEmpty(markdown: string, heading: string)
    ensures ExtractSection(markdown, heading) == [] <==>
      forall q: nat, b: nat, e: nat :: !HeadingLine(markdown, heading, q, b, e)
  {
    match FindSection(markdown, heading)
    case None =>
      forall q: nat, b: nat, e: nat | HeadingLine(markdown, heading, q, b, e) ensures false {
        FindSectionFirst(markdown, heading, q, b, e);
      }
    case Some(m) =>
      assert markdown[m.start] == '#' && markdown[m.start + 1] == '#';
      StripHeadingSlice(markdown, m.start, m.end);
  }

  /**
   * `r` is `s[i..j]` with only trailing whitespace dropped, still opens with
   * `##` and ends with a non-space character.
   */
  predicate StrippedHeading(s: string, i: nat, j: nat, r: string) {
    i + |r| <= j <= |s| && r == s[i..i + |r|] && AllSpace(s, i + |r|, j)
    && |r| >= 2 && r[0] == '#' && r[1] == '#' && !IsSpace(r[|r| - 1])
  }

  /** Stripping a slice that opens with `##` leaves a prefix of it that still opens with `##`. */
  lemma StripHeadingSlice(s: string, i: nat, j: nat)
    requires i + 1 < j <= |s| && s[i] == '#' && s[i + 1] == '#'
    ensures StrippedHeading(s, i, j, Strip(s[i..j]))
  {
    StripOfSlice(s, i, j);
    StripKeeps(s, i, j, i + 1);
  }

  /**
   * What a found section looks like: a prefix of the match that begins with
   * the heading's `##`, drops only trailing whitespace and ends with a
   * non-space character.
   */
  lemma ExtractedSection(s: string, heading: string, m: SectionMatch)
    requires FindSection(s, heading) == Some(m)
    ensures StrippedHeading(s, m.start, m.end, ExtractSection(s, heading))
  {
    FoundOpensWithHashes(s, heading, m);
    ExtractSectionOf(s, heading, m);
    StripHeadingSlice(s, m.start, m.end);
  }

  /** A found section is the stripped text of its match. */
  lemma ExtractSectionOf(s: string, heading: string, m: SectionMatch)
    requires FindSection(s, heading) == Some(m)
    ensures m.start <= m.end <= |s| && ExtractSection(s, heading) == Strip(s[m.start..m.end])
  {
  }

  /** A found match starts with the heading's `##`. */
  lemma FoundOpensWithHashes(s: string, heading: string, m: SectionMatch)
    requires FindSection(s, heading) == Some(m)
    ensures m.start + 1 < m.end <= |s| && s[m.start] == '#' && s[m.start + 1] == '#'
  {
    assert HeadingLine(s, heading, m.start, m.text, m.lineEnd);
  }

  /**
   * After its own heading line, the section holds no line that opens a
   * heading of level two or deeper: a `###` subsection ends it as well.
   */
  lemma SectionStopsBeforeHeadings(s: string, heading: string, m: SectionMatch)
    requires FindSection(s, heading) == Some(m)
    ensures forall q: nat :: m.lineEnd <= q < m.start + |ExtractSection(s, heading)| ==> !HeadingStartAt(s, q)
  {
    ExtractedSection(s, heading, m);
  }

  /** A heading that ends with a non-space character survives the strip in full. */
  lemma SectionKeepsHeading(s: string, heading: string, m: SectionMatch)
    requires FindSection(s, heading) == Some(m)
    requires heading != [] && !IsSpace(heading[|heading| - 1])
    ensures m.text + |heading| <= m.start + |ExtractSection(s, heading)|
  {
    var k := m.text + |heading| - 1;
    assert s[m.text..m.text + |heading|] == heading;
    assert s[k] == heading[|heading| - 1];
    ExtractedSection(s, heading, m);
  }

  /**
   * Between the `\n` that ends a heading line and the empty line after a
   * following one-line body (not opening with `#`), no heading starts.
   */
  lemma PlainLineNoHeading(s: string, t: nat, body: string, q: nat)
    requires t + |body| + 3 <= |s|
    requires s[t] == '\n' && s[t + 1 + |body|] == '\n' && s[t + 2 + |body|] == '\n'
    requires forall k :: 0 <= k < |body| ==> s[t + 1 + k] == body[k]
    requires body != [] && body[0] != '#'
    requires forall k :: 0 <= k < |body| ==> body[k] != '\n'
    requires t <= q < t + 3 + |body|
    ensures !HeadingStartAt(s, q)
  {
    if q == t || q == t + 1 + |body| || q == t + 2 + |body| {
      assert HashRun(s, q) == 0;
    } else if q == t + 1 {
      assert s[q] == body[0];
      assert HashRun(s, q) == 0;
    } else {
      assert s[t + 1 + (q - 1 - (t + 1))] == body[q - 1 - (t + 1)];
    }
  }

  /**
   * A text that opens with `## HEADING` and a line break, the next line
   * starting with a non-space character: the search matches that first line.
   */
  lemma OpeningHeadingFound(s: string, heading: string)
    requires heading != [] && !IsSpace(heading[0])
    requires |s| > 4 + |heading| && s[0] == '#' && s[1] == '#' && s[2] == ' '
    requires forall k :: 0 <= k < |heading| ==> s[3 + k] == heading[k]
    requires s[3 + |heading|] == '\n' && !IsSpace(s[4 + |heading|])
    ensures FindSection(s, heading).Some?
    ensures var m := FindSection(s, heading).value; m.start == 0 && m.lineEnd == 3 + |heading|
  {
    var t := 3 + |heading|;
    assert s[3..t] == heading;
    assert HashRun(s, 0) == 2;
    assert HeadingLine(s, heading, 0, 3, t);
    FindSectionFirst(s, heading, 0, 3, t);
    var m := FindSection(s, heading).value;
    assert m.text == 3;
    assert m.lineEnd == t;
  }

  /** The lazy body of a match stops at the first heading start after the heading line. */
  lemma SectionEndsAt(s: string, heading: string, r: nat)
    requires FindSection(s, heading).Some? && FindSection(s, heading).value.lineEnd <= r <= |s|
    requires HeadingStartAt(s, r)
    requires forall q: nat :: FindSection(s, heading).value.lineEnd <= q < r ==> !HeadingStartAt(s, q)
    ensures FindSection(s, heading).value.end == r
  {
  }

  /** After a heading line, a one-line body and an empty line, the next `##` heading is the first heading start. */
  lemma BodyThenHeading(s: string, t: nat, body: string, r: nat)
    requires body != [] && body[0] != '#'
    requires forall k :: 0 <= k < |body| ==> body[k] != '\n'
    requires r == t + 3 + |body| && r + 2 < |s|
    requires s[t] == '\n' && s[r - 2] == '\n' && s[r - 1] == '\n'
    requires forall k :: 0 <= k < |body| ==> s[t + 1 + k] == body[k]
    requires s[r] == '#' && s[r + 1] == '#' && IsSpace(s[r + 2])
    ensures HeadingStartAt(s, r)
    ensures forall q: nat :: t <= q < r ==> !HeadingStartAt(s, q)
  {
    assert HashRun(s, r) == 2;
    forall q: nat | t <= q < r ensures !HeadingStartAt(s, q) {
      PlainLineNoHeading(s, t, body, q);
    }
  }

  /** Stripping a text that ends with a non-space character and then two `\n` drops just the two `\n`. */
  lemma StripBeforeBlankLine(s: string, r: nat)
    requires 3 <= r <= |s| && s[0] == '#' && !IsSpace(s[r - 3]) && s[r - 2] == '\n' && s[r - 1] == '\n'
    ensures Strip(s[0..r]) == s[..r - 2]
  {
    var text := s[..r - 2];
    assert text[0] == '#' && text[|text| - 1] == s[r - 3];
    assert s[0..r] == text + "\n\n";
    StripBeforeSpace(text, "\n\n");
  }

  /** A heading line, a one-line body, an empty line and another heading, described position by position. */
  lemma SectionOfLayout(s: string, heading: string, body: string, r: nat)
    requires heading != [] && !IsSpace(heading[0])
    requires body != [] && !IsSpace(body[0]) && body[0] != '#' && !IsSpace(body[|body| - 1])
    requires forall k :: 0 <= k < |body| ==> body[k] != '\n'
    requires r == 6 + |heading| + |body| && r + 2 < |s|
    requires s[0] == '#' && s[1] == '#' && s[2] == ' ' && s[3 + |heading|] == '\n'
    requires forall k :: 0 <= k < |heading| ==> s[3 + k] == heading[k]
    requires forall k :: 0 <= k < |body| ==> s[4 + |heading| + k] == body[k]
    requires s[r - 2] == '\n' && s[r - 1] == '\n'
    requires s[r] == '#' && s[r + 1] == '#' && IsSpace(s[r + 2])
    ensures ExtractSection(s, heading) == s[..r - 2]
  {
    var t := 3 + |heading|;
    assert s[t + 1] == body[0];
    OpeningHeadingFound(s, heading);
    BodyThenHeading(s, t, body, r);
    SectionEndsAt(s, heading, r);
    assert s[r - 3] == s[4 + |heading| + (|body| - 1)];
    StripBeforeBlankLine(s, r);
  }

  /** Where the parts of `## HEADING\nBODY\n\nREST` lie. */
  lemma OpeningLayout(heading: string, body: string, rest: string)
    requires |rest| >= 3
    ensures var pre := "## " + heading + "\n";
      var s := pre + body + "\n\n" + rest;
      var r := 6 + |heading| + |body|;
      r + 2 < |s| && s[..r - 2] == pre + body
      && s[0] == '#' && s[1] == '#' && s[2] == ' ' && s[3 + |heading|] == '\n'
      && (forall k :: 0 <= k < |heading| ==> s[3 + k] == heading[k])
      && (forall k :: 0 <= k < |body| ==> s[4 + |heading| + k] == body[k])
      && s[r - 2] == '\n' && s[r - 1] == '\n' && s[r] == rest[0] && s[r + 1] == rest[1] && s[r + 2] == rest[2]
  {
    var pre := "## " + heading + "\n";
    var s := pre + body + "\n\n" + rest;
    ConcatSlices(pre, body, "\n\n", rest);
    forall k | 0 <= k < |heading| ensures s[3 + k] == heading[k] {
      assert s[3 + k] == pre[3 + k];
    }
  }

  /**
   * The section under `## HEADING` with a one-line body ends at the next
   * `##` heading: `## Quick Start\nStep 1\n\n## Other\nX` gives
   * `## Quick Start\nStep 1` (heading `Quick Start`, body `Step 1`, and the
   * rest `## Other\nX`).
   */
  lemma SectionStopsAtNextHeading(heading: string, body: string, rest: string)
    requires heading != [] && !IsSpace(heading[0])
    requires body != [] && !IsSpace(body[0]) && body[0] != '#' && !IsSpace(body[|body| - 1])
    requires forall k :: 0 <= k < |body| ==> body[k] != '\n'
    requires |rest| >= 3 && rest[0] == '#' && rest[1] == '#' && IsSpace(rest[2])
    ensures ExtractSection("## " + heading + "\n" + body + "\n\n" + rest, heading) == "## " + heading + "\n" + body
  {
    OpeningLayout(heading, body, rest);
    SectionOfLayout("## " + heading + "\n" + body + "\n\n" + rest, heading, body, 6 + |heading| + |body|);
  }
}
