/**
 * The README's introduction (`_extract_intro`): the README's lines up to and
 * including the first horizontal rule `---`, without raw HTML lines and
 * badge lines, joined with `\n` and stripped.
 */
module Intro {
  import opened Text
  import opened Seqs

  /** `line.startswith("# ")`: the README's title line. */
  predicate IsTitleLine(line: string) {
    StartsWith(line, "# ")
  }

  /** `line.startswith("<") and line.endswith(">")`: a raw HTML line. */
  predicate IsHtmlLine(line: string) {
    StartsWith(line, "<") && EndsWith(line, ">")
  }

  /** `line.strip().startswith("[![")`: a badge line. */
  predicate IsBadgeLine(line: string) {
    StartsWith(Strip(line), "[![")
  }

  /** `line.strip() == "---"`: the horizontal rule that ends the introduction. */
  predicate IsRule(line: string) {
    Strip(line) == "---"
  }

  /** A line that survives the filter. */
  predicate Kept(line: string) {
    !IsHtmlLine(line) && !IsBadgeLine(line)
  }

  /** How many elements of `xs` there are up to and including the first that `stop` accepts; all of them if none. */
  function Through<T>(xs: seq<T>, stop: T -> bool): (n: nat)
    ensures n <= |xs|
    ensures forall i :: 0 <= i && i + 1 < n ==> !stop(xs[i])
    ensures n < |xs| ==> 0 < n && stop(xs[n - 1])
  {
    if xs == [] then 0
    else if stop(xs[0]) then 1
    else 1 + Through(xs[1..], stop)
  }

  /** The lines of the introduction: the kept lines among those up to the first rule. */
  function IntroLines(lines: seq<string>): seq<string> {
    Filter(lines[..Through(lines, IsRule)], Kept)
  }

  /** The introduction text that `_extract_intro` returns for `markdown`. */
  function IntroText(markdown: string): string {
    Strip(Join(IntroLines(SplitLines(markdown)), "\n"))
  }

  /** A title line is kept and is not a rule. */
  lemma TitleLineKept(line: string)
    requires IsTitleLine(line)
    ensures Kept(line) && !IsRule(line)
  {
    assert line[..2][0] == line[0] == '#';
    StripKeepsStart(line);
    var t := Strip(line);
    assert t != "---" by { assert t[0] != "---"[0]; }
    assert !StartsWith(t, "[![") by { assert t[0] != "[!["[0]; }
    assert !StartsWith(line, "<") by { assert line[0] != "<"[0]; }
  }

  /** A rule line is neither a title, raw HTML nor a badge, so it is always kept. */
  lemma RuleLineKept(line: string)
    ensures IsRule(line) ==> Kept(line) && !IsTitleLine(line)
  {
    if line != [] && !IsSpace(line[0]) {
      StripKeepsStart(line);
    }
  }

  /** Once an element that `stop` accepts has been read, `Through` no longer depends on what follows. */
  lemma {:induction false} ThroughIgnoresRest<T>(xs: seq<T>, more: seq<T>, stop: T -> bool)
    requires Through(xs, stop) < |xs| || (xs != [] && stop(xs[|xs| - 1]))
    ensures Through(xs + more, stop) == Through(xs, stop)
  {
    var all := xs + more;
    assert all[0] == xs[0];
    if !stop(xs[0]) {
      var tail := xs[1..];
      assert all[1..] == tail + more;
      if Through(xs, stop) < |xs| {
        assert Through(tail, stop) < |tail|;
      } else {
        assert tail != [] && tail[|tail| - 1] == xs[|xs| - 1];
      }
      ThroughIgnoresRest(tail, more, stop);
    }
  }

  /** `Through` stops at the first element that `stop` accepts. */
  lemma ThroughStopsAt<T>(xs: seq<T>, stop: T -> bool, n: nat)
    requires 0 < n <= |xs| && stop(xs[n - 1])
    requires forall i :: 0 <= i < n - 1 ==> !stop(xs[i])
    ensures Through(xs, stop) == n
  {
  }

  /** `Through` reads everything when `stop` accepts nothing. */
  lemma ThroughAll<T>(xs: seq<T>, stop: T -> bool)
    requires forall i :: 0 <= i < |xs| ==> !stop(xs[i])
    ensures Through(xs, stop) == |xs|
  {
  }

  /** When `stop` accepts `xs[j]`, `Through` ends at or before `j` with an accepted element. */
  lemma ThroughFindsFirst<T>(xs: seq<T>, stop: T -> bool, j: nat)
    requires j < |xs| && stop(xs[j])
    ensures 0 < Through(xs, stop) <= j + 1 && stop(xs[Through(xs, stop) - 1])
  {
  }

  /** Filtering the prefix through the first stop element ignores anything appended after it. */
  lemma FilterThroughIgnoresRest<T>(xs: seq<T>, more: seq<T>, stop: T -> bool, keep: T -> bool, j: nat)
    requires j < |xs| && stop(xs[j])
    ensures Filter((xs + more)[..Through(xs + more, stop)], keep) == Filter(xs[..Through(xs, stop)], keep)
  {
    ThroughFindsFirst(xs, stop, j);
    ThroughIgnoresRest(xs, more, stop);
    var n := Through(xs, stop);
    assert (xs + more)[..n] == xs[..n];
  }

  /** The introduction holds no raw HTML line and no badge line. */
  lemma IntroFiltersHtmlAndBadges(lines: seq<string>)
    ensures forall i :: 0 <= i < |IntroLines(lines)| ==>
      !IsHtmlLine(IntroLines(lines)[i]) && !IsBadgeLine(IntroLines(lines)[i])
  {
    var kept := IntroLines(lines);
    forall i | 0 <= i < |kept| ensures !IsHtmlLine(kept[i]) && !IsBadgeLine(kept[i]) {
      assert Kept(kept[i]);
    }
  }

  /** Every line read before the cut that is a title line or survives the filter is in the introduction. */
  lemma IntroKeepsLines(lines: seq<string>, i: nat)
    requires i < Through(lines, IsRule)
    requires IsTitleLine(lines[i]) || Kept(lines[i])
    ensures lines[i] in IntroLines(lines)
  {
    if IsTitleLine(lines[i]) {
      TitleLineKept(lines[i]);
    }
    var read := lines[..Through(lines, IsRule)];
    assert read[i] == lines[i];
    FilterMember(read, Kept, read[i]);
  }

  /** When a rule is present, the introduction ends with the first one. */
  lemma IntroEndsAtFirstRule(lines: seq<string>, j: nat)
    requires j < |lines| && IsRule(lines[j])
    ensures Through(lines, IsRule) <= j + 1
    ensures 0 < Through(lines, IsRule) && IsRule(lines[Through(lines, IsRule) - 1])
    ensures IntroLines(lines) != [] && IntroLines(lines)[|IntroLines(lines)| - 1] == lines[Through(lines, IsRule) - 1]
  {
    ThroughFindsFirst(lines, IsRule, j);
    var n := Through(lines, IsRule);
    var read := lines[..n];
    assert read[n - 1] == lines[n - 1];
    RuleLineKept(read[n - 1]);
    FilterEndsWith(read, Kept);
  }

  /** No line after the first rule contributes to the introduction. */
  lemma IntroIgnoresRest(lines: seq<string>, more: seq<string>, j: nat)
    requires j < |lines| && IsRule(lines[j])
    ensures IntroLines(lines + more) == IntroLines(lines)
  {
    FilterThroughIgnoresRest(lines, more, IsRule, Kept, j);
  }

  /** Without a rule, every line passes through the filter. */
  lemma IntroWithoutRule(lines: seq<string>)
    requires forall i :: 0 <= i < |lines| ==> !IsRule(lines[i])
    ensures IntroLines(lines) == Filter(lines, Kept)
  {
    ThroughAll(lines, IsRule);
    assert lines[..|lines|] == lines;
  }

  /** `_extract_intro`. */
  method ExtractIntro(markdown: string) returns (intro: string)
    ensures intro == IntroText(markdown)
  {
    var lines := SplitLines(markdown);
    var cleaned := CleanLines(lines);
    intro := Strip(Join(cleaned, "\n"));
  }

  /** One line read by the loop: a title line is kept, as is any line that is neither raw HTML nor a badge; a rule is one of the latter. */
  lemma CleanStep(lines: seq<string>, i: nat)
    requires i < |lines|
    ensures IsTitleLine(lines[i]) ==> Filter(lines[..i + 1], Kept) == Filter(lines[..i], Kept) + [lines[i]]
    ensures Kept(lines[i]) ==> Filter(lines[..i + 1], Kept) == Filter(lines[..i], Kept) + [lines[i]]
    ensures !Kept(lines[i]) ==> Filter(lines[..i + 1], Kept) == Filter(lines[..i], Kept)
    ensures IsRule(lines[i]) ==> Kept(lines[i]) && !IsTitleLine(lines[i])
  {
    FilterSnoc(lines, Kept, i);
    RuleLineKept(lines[i]);
    if IsTitleLine(lines[i]) {
      TitleLineKept(lines[i]);
    }
  }

  /** The loop of `_extract_intro` over the README's lines. */
  method CleanLines(lines: seq<string>) returns (cleaned: seq<string>)
    ensures cleaned == IntroLines(lines)
  {
    cleaned := [];
    var i := 0;
    ghost var n := Through(lines, IsRule);
    while i < |lines|
      invariant i <= n <= |lines|
      invariant n < |lines| ==> i < n
      invariant cleaned == Filter(lines[..i], Kept)
    {
      var line := lines[i];
      CleanStep(lines, i);
      i := i + 1;
      if IsTitleLine(line) {
        cleaned := cleaned + [line];
        continue;
      }
      if IsHtmlLine(line) {
        continue;
      }
      if IsBadgeLine(line) {
        continue;
      }
      cleaned := cleaned + [line];
      if Strip(line) == "---" {
        break;
      }
    }
    assert i == n;
  }

  /** `---` is a rule line without line boundaries. */
  lemma RuleLine()
    ensures IsRule("---") && NoLineBoundary("---")
  {
    StripTrimmed("---");
  }

  /** Two lines without boundaries, each ended by `\n`, are split off one by one. */
  lemma SplitTwoLines(b: string, c: string, rest: string)
    requires NoLineBoundary(b) && NoLineBoundary(c)
    ensures SplitLines(b + "\n" + (c + "\n" + rest)) == [b, c] + SplitLines(rest)
  {
    SplitLinesFirst(c, rest);
    SplitLinesFirst(b, c + "\n" + rest);
    var tail := SplitLines(rest);
    assert [b] + ([c] + tail) == [b, c] + tail;
  }

  /** Three lines without boundaries, each ended by `\n`, are split off one by one. */
  lemma SplitThreeLines(a: string, b: string, c: string, rest: string)
    requires NoLineBoundary(a) && NoLineBoundary(b) && NoLineBoundary(c)
    ensures SplitLines(a + "\n" + (b + "\n" + (c + "\n" + rest))) == [a, b, c] + SplitLines(rest)
  {
    SplitTwoLines(b, c, rest);
    SplitLinesFirst(a, b + "\n" + (c + "\n" + rest));
    var tail := SplitLines(rest);
    assert [a] + ([b, c] + tail) == [a, b, c] + tail;
  }

  /** A title line and one kept line followed by a rule make up the whole introduction. */
  lemma IntroOfOpening(title: string, line: string, rule: string, rest: seq<string>)
    requires IsTitleLine(title) && Kept(line) && !IsRule(line) && IsRule(rule)
    ensures IntroLines([title, line, rule] + rest) == [title, line, rule]
  {
    RuleLineKept(rule);
    TitleLineKept(title);
    var head := [title, line, rule];
    IntroIgnoresRest(head, rest, 2);
    ThroughStopsAt(head, IsRule, 3);
    assert head[..3] == head;
    FilterKeepsAll(head, Kept);
  }

  /** The lines kept from a README that opens with a title line and one more line before a rule. */
  lemma IntroLinesStopAtRule(title: string, line: string, body: string)
    requires IsTitleLine(title) && NoLineBoundary(title)
    requires Kept(line) && !IsRule(line) && NoLineBoundary(line)
    ensures IntroLines(SplitLines(title + "\n" + line + "\n---\n" + body)) == [title, line, "---"]
  {
    var rule := "---";
    RuleLine();
    assert title + "\n" + line + "\n---\n" + body == title + "\n" + (line + "\n" + (rule + "\n" + body));
    SplitThreeLines(title, line, rule, body);
    IntroOfOpening(title, line, rule, SplitLines(body));
  }

  /** When the kept lines join to a text without surrounding whitespace, that text is the introduction. */
  lemma IntroTextOfLines(markdown: string, text: string)
    requires text != [] && !IsSpace(text[0]) && !IsSpace(text[|text| - 1])
    requires Join(IntroLines(SplitLines(markdown)), "\n") == text
    ensures IntroText(markdown) == text
  {
    StripTrimmed(text);
  }

  /**
   * A README that opens with a title line and one more line before a rule:
   * the introduction is exactly those three lines, whatever follows.
   */
  lemma IntroStopsAtRule(title: string, line: string, body: string)
    requires IsTitleLine(title) && NoLineBoundary(title)
    requires Kept(line) && !IsRule(line) && NoLineBoundary(line)
    ensures IntroText(title + "\n" + line + "\n---\n" + body) == title + "\n" + line + "\n" + "---"
  {
    IntroLinesStopAtRule(title, line, body);
    JoinThree(title, line, "---", "\n");
    var joined := Join([title, line, "---"], "\n");
    assert joined[0] == '#' && joined[|joined| - 1] == '-' by {
      assert joined[0] == title[0] == title[..2][0];
    }
    IntroTextOfLines(title + "\n" + line + "\n---\n" + body, joined);
  }

  /** The lines of the example README: a title line and a kept line that is not a rule. */
  lemma ExampleLines()
    ensures IsTitleLine("# Title") && NoLineBoundary("# Title")
    ensures Kept("Hello") && !IsRule("Hello") && NoLineBoundary("Hello")
  {
    var line := "Hello";
    assert "# Title"[..2] == "# ";
    StripTrimmed(line);
    assert !IsRule(line) by { assert Strip(line)[0] != "---"[0]; }
    assert !IsBadgeLine(line) by { assert Strip(line)[0] != "[!["[0]; }
    assert !IsHtmlLine(line) by { assert line[0] != "<"[0]; }
  }

  /** The example README and its introduction, written in pieces. */
  lemma ExampleText()
    ensures "# Title" + "\n" + "Hello" + "\n---\n" + "Body" == "# Title\nHello\n---\nBody"
    ensures "# Title" + "\n" + "Hello" + "\n" + "---" == "# Title\nHello\n---"
  {
  }

  /** The README `# Title\nHello\n---\nBody` has the introduction `# Title\nHello\n---`. */
  lemma IntroExample()
    ensures IntroText("# Title\nHello\n---\nBody") == "# Title\nHello\n---"
  {
    ExampleLines();
    IntroStopsAtRule("# Title", "Hello", "Body");
    ExampleText();
  }

  /** A kept line that is not a rule, then a rule, make up the whole introduction. */
  lemma IntroOfLineAndRule(line: string, rule: string)
    requires Kept(line) && !IsRule(line) && IsRule(rule)
    ensures IntroLines([line, rule]) == [line, rule]
  {
    RuleLineKept(rule);
    var lines := [line, rule];
    ThroughStopsAt(lines, IsRule, 2);
    assert lines[..2] == lines;
    FilterKeepsAll(lines, Kept);
  }

  /** ` <div>` is not an HTML line to the filter (it does not start with `<`), and strips to `<div>`. */
  lemma IndentedDivLine()
    ensures Kept(" <div>") && !IsRule(" <div>") && NoLineBoundary(" <div>")
    ensures " <div>" == " " + "<div>" && !IsSpace("<div>"[0])
  {
    var line := " <div>";
    assert !IsHtmlLine(line) by { assert line[0] != "<"[0]; }
    StripLeadingSpace(' ', "<div>");
    assert [' '] + "<div>" == line;
    assert !IsBadgeLine(line) by { assert Strip(line)[0] != "[!["[0]; }
    assert !IsRule(line) by { assert Strip(line)[0] != "---"[0]; }
  }

  /** A README of one kept line and a rule: the introduction is the whole text, stripped. */
  lemma IntroOfTwoLines(line: string, rule: string)
    requires Kept(line) && !IsRule(line) && NoLineBoundary(line)
    requires IsRule(rule) && rule != [] && NoLineBoundary(rule)
    ensures IntroText(line + "\n" + rule) == Strip(line + "\n" + rule)
  {
    SplitLinesFirst(line, rule);
    SplitLinesSingle(rule);
    assert [line] + [rule] == [line, rule];
    IntroOfLineAndRule(line, rule);
    JoinTwo(line, rule, "\n");
  }

  /** The indented-HTML README and its introduction, written in pieces. */
  lemma IndentedHtmlText()
    ensures " <div>\n---" == " <div>" + "\n" + "---"
    ensures " " + "<div>" + "\n" + "---" == [' '] + ("<div>" + "\n" + "---")
    ensures "<div>" + "\n" + "---" == "<div>\n---"
    ensures var t := "<div>" + "\n" + "---"; t != [] && !IsSpace(t[0]) && !IsSpace(t[|t| - 1])
  {
  }

  /**
   * The filter looks at lines as they are: an indented HTML line is kept, and
   * the final strip then makes the introduction open with it.
   */
  lemma IndentedHtmlKept()
    ensures IntroText(" <div>\n---") == "<div>\n---"
  {
    IndentedDivLine();
    RuleLine();
    IndentedHtmlText();
    IntroOfTwoLines(" <div>", "---");
    StripLeadingSpace(' ', "<div>" + "\n" + "---");
  }
}
