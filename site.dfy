/**
 * The two pages `generate` writes: `index.md`, built from the README's
 * introduction and its Quick Start and Architecture sections, and
 * `configuration.md`, one bullet per key of `kube.tf.example`. The pages
 * are modelled as strings; reading and writing the files is not.
 */
module Site {
  import opened Text
  import opened Intro
  import opened Section
  import opened ConfigKeys

  /** The first block of `index.md`. */
  const Title: string := "# kube-hetzner"

  /** The second block of `index.md`. */
  const IndexNotice: string := "> Generated from `README.md` by `scripts/sync_docs_site.py`."

  /**
   * `index.md`: the five blocks joined by an empty line, stripped, and ended
   * with one `\n`. An empty block stays in the join (`x or ""` is `x` for a
   * string) and only adds blank lines.
   */
  function IndexContent(intro: string, quickStart: string, architecture: string): string {
    Strip(Join([Title, IndexNotice, intro, quickStart, architecture], "\n\n")) + "\n"
  }

  /** Joining five parts puts the separator between each two. */
  lemma JoinFive(a: string, b: string, c: string, d: string, e: string, sep: string)
    ensures Join([a, b, c, d, e], sep) == a + sep + b + sep + c + sep + d + sep + e
  {
    assert [a, b, c, d, e][1..] == [b, c, d, e];
    assert [b, c, d, e][1..] == [c, d, e];
    JoinThree(c, d, e, sep);
    assert Join([b, c, d, e], sep) == b + sep + (c + sep + d + sep + e);
  }

  /** The title's last character is not whitespace. */
  lemma TitleShape()
    ensures |Title| == 14 && Title[0] == '#' && !IsSpace(Title[13])
  {
  }

  /**
   * `index.md` opens with the title and ends with exactly one `\n`, after a
   * character that is not whitespace.
   */
  lemma IndexShape(intro: string, quickStart: string, architecture: string)
    ensures var page := IndexContent(intro, quickStart, architecture);
      StartsWith(page, Title) && |page| > |Title| && page[|page| - 1] == '\n' && !IsSpace(page[|page| - 2])
  {
    var joined := Join([Title, IndexNotice, intro, quickStart, architecture], "\n\n");
    JoinFive(Title, IndexNotice, intro, quickStart, architecture, "\n\n");
    TitleShape();
    assert joined[..|Title|] == Title;
    assert joined[0] == '#' && joined[13] == Title[13];
    StripKeepsStart(joined);
    assert joined[0..|joined|] == joined;
    StripKeeps(joined, 0, |joined|, 13);
    StripOfSlice(joined, 0, |joined|);
    var body := Strip(joined);
    assert body == joined[..|body|];
    assert body[..|Title|] == Title;
    var page := body + "\n";
    assert page[..|Title|] == body[..|Title|];
    assert page[|page| - 2] == body[|body| - 1];
  }

  /**
   * When the architecture block ends with a character that is not
   * whitespace, `index.md` is the five blocks separated by empty lines
   * (an empty introduction or Quick Start leaving a run of blank lines),
   * ended with `\n`.
   */
  lemma IndexOfBlocks(intro: string, quickStart: string, architecture: string)
    requires architecture != [] && !IsSpace(architecture[|architecture| - 1])
    ensures IndexContent(intro, quickStart, architecture)
      == Title + "\n\n" + IndexNotice + "\n\n" + intro + "\n\n" + quickStart + "\n\n" + architecture + "\n"
  {
    var joined := Join([Title, IndexNotice, intro, quickStart, architecture], "\n\n");
    JoinFive(Title, IndexNotice, intro, quickStart, architecture, "\n\n");
    TitleShape();
    assert joined[0] == '#';
    assert joined[|joined| - 1] == architecture[|architecture| - 1];
    StripTrimmed(joined);
  }

  /** With all three README blocks empty, `index.md` is the title and the notice. */
  lemma IndexOfNothing()
    ensures IndexContent("", "", "") == Title + "\n\n" + IndexNotice + "\n"
  {
    var joined := Join([Title, IndexNotice, "", "", ""], "\n\n");
    var text := Title + "\n\n" + IndexNotice;
    JoinFive(Title, IndexNotice, "", "", "", "\n\n");
    assert joined == text + "\n\n\n\n\n\n";
    assert text[0] == '#' && text[|text| - 1] == '.';
    StripBeforeSpace(text, "\n\n\n\n\n\n");
  }

  /** The first line of `configuration.md`. */
  const ConfigTitle: string := "# Configuration Reference"

  /** Its notice line (written in two pieces). */
  const ConfigNotice: string := "> Generated from `kube.tf.example`" + " by `scripts/sync_docs_site.py`."

  /** The heading above the keys. */
  const KeysHeading: string := "## Detected Configuration Keys"

  /** `f"- `{key}`"` */
  function Bullet(key: string): string {
    "- `" + key + "`"
  }

  /** The Markdown list item of each key, in order. */
  function Bullets(keys: seq<string>): (rows: seq<string>)
    ensures |rows| == |keys|
    ensures forall i :: 0 <= i < |keys| ==> rows[i] == Bullet(keys[i])
  {
    if keys == [] then [] else [Bullet(keys[0])] + Bullets(keys[1..])
  }

  /** `configuration.md`: the fixed header, then the bullets joined by `\n`, then `\n`. */
  function ConfigContent(keys: seq<string>): string {
    ConfigTitle + "\n\n" + (ConfigNotice + "\n\n" + (KeysHeading + "\n\n" + (Join(Bullets(keys), "\n") + "\n")))
  }

  /** The header lines of `configuration.md`, the empty ones included. */
  const HeaderLines: seq<string> := [ConfigTitle, "", ConfigNotice, "", KeysHeading, ""]

  /** A line followed by an empty line. */
  lemma SplitLinesBlank(line: string, rest: string)
    requires NoLineBoundary(line)
    ensures SplitLines(line + "\n\n" + rest) == [line, ""] + SplitLines(rest)
  {
    var s := line + "\n\n" + rest;
    assert forall k :: 0 <= k < |line| ==> s[k] == line[k];
    assert s[|line|] == '\n' && s[|line| + 1] == '\n';
    assert NextBoundary(s, 0) == |line|;
    assert s[..|line|] == line;
    var t := s[|line| + 1..];
    assert t == "\n" + rest;
    assert NextBoundary(t, 0) == 0;
    assert t[1..] == rest;
  }

  /** Two lines, each followed by an empty line. */
  lemma SplitLinesTwoBlank(a: string, b: string, tail: string)
    requires NoLineBoundary(a) && NoLineBoundary(b)
    ensures SplitLines(a + "\n\n" + (b + "\n\n" + tail)) == [a, "", b, ""] + SplitLines(tail)
  {
    var rest := SplitLines(tail);
    SplitLinesBlank(b, tail);
    SplitLinesBlank(a, b + "\n\n" + tail);
    assert [a, ""] + ([b, ""] + rest) == [a, "", b, ""] + rest;
  }

  /** Three lines, each followed by an empty line. */
  lemma SplitLinesHeader(a: string, b: string, c: string, tail: string)
    requires NoLineBoundary(a) && NoLineBoundary(b) && NoLineBoundary(c)
    ensures SplitLines(a + "\n\n" + (b + "\n\n" + (c + "\n\n" + tail))) == [a, "", b, "", c, ""] + SplitLines(tail)
  {
    var rest := SplitLines(tail);
    SplitLinesBlank(c, tail);
    SplitLinesTwoBlank(a, b, c + "\n\n" + tail);
    assert [a, "", b, ""] + ([c, ""] + rest) == [a, "", b, "", c, ""] + rest;
  }

  /** Lines without boundaries, joined by `\n` and ended with `\n`, split back into themselves. */
  lemma {:induction false} SplitJoined(lines: seq<string>)
    requires lines != [] && forall i :: 0 <= i < |lines| ==> NoLineBoundary(lines[i])
    ensures SplitLines(Join(lines, "\n") + "\n") == lines
  {
    if |lines| == 1 {
      SplitLinesFirst(lines[0], "");
      assert lines[0] + "\n" + "" == lines[0] + "\n";
    } else {
      var rest := lines[1..];
      assert Join(lines, "\n") + "\n" == lines[0] + "\n" + (Join(rest, "\n") + "\n");
      SplitLinesFirst(lines[0], Join(rest, "\n") + "\n");
      SplitJoined(rest);
      assert lines == [lines[0]] + rest;
    }
  }

  /** The header lines hold no line boundaries. */
  lemma HeaderPlain()
    ensures NoLineBoundary(ConfigTitle) && NoLineBoundary(ConfigNotice) && NoLineBoundary(KeysHeading)
  {
    TitlePlain();
    NoticePlain();
    HeadingPlain();
  }

  /** The page title is one line. */
  lemma TitlePlain()
    ensures NoLineBoundary(ConfigTitle)
  {
  }

  /** The notice is one line: both of its pieces are. */
  lemma NoticePlain()
    ensures NoLineBoundary(ConfigNotice)
  {
    NoticeStartPlain();
    NoticeEndPlain();
    NoLineBoundaryAppend("> Generated from `kube.tf.example`", " by `scripts/sync_docs_site.py`.");
  }

  /** The notice's first piece is one line. */
  lemma NoticeStartPlain()
    ensures NoLineBoundary("> Generated from `kube.tf.example`")
  {
  }

  /** The notice's second piece is one line. */
  lemma NoticeEndPlain()
    ensures NoLineBoundary(" by `scripts/sync_docs_site.py`.")
  {
  }

  /** The heading above the keys is one line. */
  lemma HeadingPlain()
    ensures NoLineBoundary(KeysHeading)
  {
  }

  /** A bullet is one line when its key is. */
  lemma BulletPlain(key: string)
    requires NoLineBoundary(key)
    ensures NoLineBoundary(Bullet(key))
  {
    var b := Bullet(key);
    forall k | 0 <= k < |b| ensures !IsLineBoundary(b[k]) {
      if 3 <= k < 3 + |key| {
        assert b[k] == key[k - 3];
      }
    }
  }

  /** The bullets joined by `\n` and ended with `\n` are one line per key; with no keys, one empty line. */
  lemma RowsLines(keys: seq<string>)
    requires forall i :: 0 <= i < |keys| ==> NoLineBoundary(keys[i])
    ensures SplitLines(Join(Bullets(keys), "\n") + "\n") == if keys == [] then [""] else Bullets(keys)
  {
    var rows := Bullets(keys);
    if keys == [] {
      SplitLinesFirst("", "");
      assert Join(rows, "\n") + "\n" == "" + "\n" + "";
    } else {
      forall i | 0 <= i < |rows| ensures NoLineBoundary(rows[i]) {
        BulletPlain(keys[i]);
      }
      SplitJoined(rows);
    }
  }

  /**
   * The lines of `configuration.md`: the header lines, then one bullet per
   * key in the order of the keys; with no keys, one empty line instead.
   */
  lemma ConfigLines(keys: seq<string>)
    requires forall i :: 0 <= i < |keys| ==> NoLineBoundary(keys[i])
    ensures SplitLines(ConfigContent(keys)) == HeaderLines + (if keys == [] then [""] else Bullets(keys))
  {
    HeaderPlain();
    RowsLines(keys);
    SplitLinesHeader(ConfigTitle, ConfigNotice, KeysHeading, Join(Bullets(keys), "\n") + "\n");
  }

  /** An identifier holds no line boundary. */
  lemma IdentifierPlain(key: string)
    requires IsIdentifier(key)
    ensures NoLineBoundary(key)
  {
    forall k | 0 <= k < |key| ensures !IsLineBoundary(key[k]) {
      if k > 0 {
        assert IsIdentChar(key[k]);
      }
    }
  }

  /** The lines of the generated `configuration.md`: the header, then one bullet per reported key. */
  lemma GeneratedConfigLines(example: string)
    ensures var keys := ConfigurationKeys(example);
      SplitLines(ConfigContent(keys)) == HeaderLines + (if keys == [] then [""] else Bullets(keys))
  {
    var keys := ConfigurationKeys(example);
    ConfigurationKeysShape(example);
    forall i | 0 <= i < |keys| ensures NoLineBoundary(keys[i]) {
      IdentifierPlain(keys[i]);
    }
    ConfigLines(keys);
  }

  /**
   * The contents of both pages that `generate` writes, for the given README
   * and `kube.tf.example` texts.
   */
  method Generate(readme: string, kubeExample: string) returns (index: string, configuration: string)
    ensures index == IndexContent(IntroText(readme), ExtractSection(readme, "Quick Start"), ExtractSection(readme, "Architecture"))
    ensures configuration == ConfigContent(ConfigurationKeys(kubeExample))
    ensures StartsWith(index, Title) && index[|index| - 1] == '\n'
  {
    var intro := ExtractIntro(readme);
    var quickStart := ExtractSection(readme, "Quick Start");
    var architecture := ExtractSection(readme, "Architecture");
    index := IndexContent(intro, quickStart, architecture);
    IndexShape(intro, quickStart, architecture);
    var keys := ExtractConfigurationKeys(kubeExample);
    var rows := Join(Bullets(keys), "\n");
    configuration := ConfigTitle + "\n\n" + (ConfigNotice + "\n\n" + (KeysHeading + "\n\n" + (rows + "\n")));
  }
}
