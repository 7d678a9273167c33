# sync_docs_site, modelled in Dafny

`scripts/sync_docs_site.py` builds a small documentation site from two
texts: the project's `README.md` and its `kube.tf.example`. This project
models the script's text processing and proves what it computes.

- **Introduction** (`_extract_intro`): the README's lines up to and
  including the first horizontal rule `---`. Raw HTML lines and badge lines
  are dropped, title lines are always kept, and the result is joined with
  `\n` and stripped. It is modelled as a method with the source's loop
  (`continue` and `break` included), proved equal to a filtered prefix of
  the lines.
- **Sections** (`_extract_section`): the `re.MULTILINE` search for
  `^##+\s+HEADING\s*$` and then a lazy body up to the next `^##+\s+` or the
  end of the text; the match is stripped.
  - The fixed pattern is modelled character by character, in the order
    Python's backtracking tries the alternatives.
  - It is related to a declarative description of a heading line: which
    match is found, and when the result is empty.
- **Configuration keys** (`_extract_configuration_keys`): two `finditer`
  passes, for `^\s{2}#\s*NAME\s*=` (commented) and `^\s{2}NAME\s*=`
  (active). Block keywords are skipped, and a `seen` set keeps each name
  once, in first-seen order.
  - It is modelled as a method with the source's nested loops.
  - It is proved equal to a reference definition, and the order,
    uniqueness and membership properties are proved of that definition.
  - `finditer`'s resumption after each match is proved to lose nothing,
    because no match starts inside another.
- **Pages**:
  - `index.md`: the title, the notice, the introduction and the two
    sections, joined by an empty line, stripped and ended with `\n`.
  - `configuration.md`: a fixed header and one `` - `key` `` line per key.
  - `generate` is modelled as a method that returns both pages'
    contents.

Python's whitespace and line boundaries are modelled in full:
- `str.isspace` and `\s`: the same set of characters;
- `str.strip`;
- `str.splitlines`, with `\r\n` as one boundary;
- `^` and `$` under `re.MULTILINE`.

Consequences of the script's patterns that are easy to misread:
- Empty blocks are not dropped from `index.md`. `x or ""` is `x` for a
  string, so an empty introduction or section stays in the join and leaves
  extra blank lines (`Site.IndexOfBlocks`, `Site.IndexOfNothing`).
- `\s` also matches line breaks and tabs. So `^\s{2}` can be a line break
  followed by one space: a key indented by one space right after an empty
  line is reported (`ConfigKeys.BlankLineIndents`). Likewise the `\s*`
  after `#` crosses line breaks: after a bare `  #` line, a key indented by
  three spaces is reported as a commented key
  (`ConfigKeys.BareCommentThenIndented`). The gap after the section
  heading's hashes can also be any whitespace, not only spaces.
- Any heading of level two or deeper ends a section, a `###` subsection
  included (`Section.SectionStopsBeforeHeadings`).
- `ExtractSection` places no condition on the heading; it is compared
  literally.
- The HTML and badge filter holds for the kept lines, not for the returned
  text: an indented HTML line such as ` <div>` does not start with `<`, so
  it is kept, and the final strip can make the introduction open with
  `<div>` (`Intro.IndentedHtmlKept`).

Modules: `Options`, `Text` (the Python string primitives), `Seqs` (filter,
ordered de-duplication), `Intro`, `Section`, `ConfigKeys`, `Site`.

## Model

| member | source | states |
|---|---|---|
| Text.StripShape | scripts/sync_docs_site.py:21 | a stripped text has no whitespace at either end, and is empty exactly when the input is all whitespace |
| Intro.ExtractIntro | scripts/sync_docs_site.py:24-38 | the introduction is the stripped `\n`-join of the kept lines of the README's lines up to the first rule |
| Intro.CleanLines | scripts/sync_docs_site.py:26-37 | the loop's list is exactly the lines up to and including the first rule, without raw HTML and badge lines, in input order |
| Intro.CleanStep | scripts/sync_docs_site.py:28-35 | one step of the loop: a title line or any line that is neither HTML nor a badge is appended, other lines are skipped, and a rule is always appended |
| Intro.TitleLineKept | scripts/sync_docs_site.py:28-30 | a `# ` line is never dropped as HTML or a badge and is never a rule, so taking it first changes nothing |
| Intro.RuleLineKept | scripts/sync_docs_site.py:31-37 | a line whose stripped form is `---` is neither HTML, a badge nor a title, so it reaches the append and the `break` |
| Intro.IntroFiltersHtmlAndBadges | scripts/sync_docs_site.py:31-34 | no kept line starts with `<` and ends with `>`, and none strips to something starting with `[![` |
| Intro.IntroKeepsLines | scripts/sync_docs_site.py:28-35 | every line read before the stop that is a title line or neither HTML nor a badge is in the result |
| Intro.IntroEndsAtFirstRule | scripts/sync_docs_site.py:35-37 | with a rule present, reading stops at the first rule, which is the last kept line |
| Intro.IntroIgnoresRest | scripts/sync_docs_site.py:36-37 | lines after the first rule never contribute |
| Intro.IntroWithoutRule | scripts/sync_docs_site.py:27-35 | without a rule every line passes through the filter |
| Intro.SplitThreeLines | scripts/sync_docs_site.py:25 | three boundary-free lines each ended by `\n` are split off in order |
| Intro.IntroOfOpening | scripts/sync_docs_site.py:27-37 | a title line, one kept line and a rule make up the whole kept list, whatever follows |
| Intro.IntroLinesStopAtRule | scripts/sync_docs_site.py:25-37 | a README `title\nline\n---\nbody` keeps exactly `[title, line, "---"]` |
| Intro.IntroTextOfLines | scripts/sync_docs_site.py:38 | kept lines whose join has no surrounding whitespace are returned as joined |
| Intro.IntroExample | scripts/sync_docs_site.py:24-38 | the README `# Title\nHello\n---\nBody` has the introduction `# Title\nHello\n---` |
| Intro.IntroOfTwoLines | scripts/sync_docs_site.py:24-38 | a README of one kept line and a rule has the whole text, stripped, as its introduction |
| Intro.IndentedHtmlKept | scripts/sync_docs_site.py:31-38 | ` <div>\n---` has the introduction `<div>\n---`: an indented HTML line passes the filter and the strip removes its indent |
| Intro.IntroStopsAtRule | scripts/sync_docs_site.py:24-38 | `title\nline\n---\nbody` gives `title\nline\n---` (the `# Title\nHello\n---\nBody` example, for any title, line and body) |
| Section.TailEnd | scripts/sync_docs_site.py:17 | `HEADING\s*$` at a position: the heading text, then the largest whitespace run that ends at a line end, or no match at all |
| Section.TryGap | scripts/sync_docs_site.py:17 | the greedy `\s+` after the hashes gives back characters until the rest matches: the largest heading position that works, or none |
| Section.MatchAt | scripts/sync_docs_site.py:16-19 | the heading line tried at one position: a match is a heading line, and it is the one the backtracking reaches first (largest heading position, then largest line end); no match means no heading line starts there |
| Section.FindFrom | scripts/sync_docs_site.py:20 | a search result is a position at or after the start where the heading line matches |
| Section.FindFromReaches | scripts/sync_docs_site.py:20 | a heading line at `q` is found by the search from any earlier position, at `q` or before |
| Section.SectionEnd | scripts/sync_docs_site.py:17 | the lazy body ends at the first position after the heading line where `^##+\s+` holds, or at the end of the text |
| Section.FindSection | scripts/sync_docs_site.py:16-20 | a found match is a heading line followed by a body that runs to the first later heading start or the end of the text |
| Section.FindSectionFirst | scripts/sync_docs_site.py:20 | the search finds the leftmost heading line |
| Section.ExtractSectionEmpty | scripts/sync_docs_site.py:20-21 | the section is `""` exactly when no line start is followed by `##+`, whitespace, the heading, optional whitespace and a line end |
| Section.StripHeadingSlice | scripts/sync_docs_site.py:21 | stripping a slice that opens with `##` only drops trailing whitespace |
| Section.ExtractedSection | scripts/sync_docs_site.py:21 | a found section is a prefix of the match from its first `##`, with only trailing whitespace dropped and a non-space last character |
| Section.SectionKeepsHeading | scripts/sync_docs_site.py:17-21 | a heading ending with a non-space character is kept in full |
| Section.SectionStopsBeforeHeadings | scripts/sync_docs_site.py:17 | past its heading line the section holds no start of another heading of level two or deeper |
| Section.OpeningHeadingFound | scripts/sync_docs_site.py:17-20 | a text that opens with `## heading\n` is matched at its start, with the line end just after the heading |
| Section.SectionOfLayout | scripts/sync_docs_site.py:17-21 | a section with a one-line body, followed by an empty line and another heading, is the heading line and the body |
| Section.SectionStopsAtNextHeading | scripts/sync_docs_site.py:15-21 | `## heading\nbody\n\n## …` gives `## heading\nbody` (the `## Quick Start\nStep 1\n\n## Other\nX` example, for any such heading, body and rest) |
| ConfigKeys.AssignmentAtFinds | scripts/sync_docs_site.py:46-47 | a name followed by optional whitespace and `=` is matched with the whole name captured |
| ConfigKeys.AssignmentKey | scripts/sync_docs_site.py:46-47 | the captured group is an identifier `[a-zA-Z_][a-zA-Z0-9_]*` |
| ConfigKeys.MatchAtShape | scripts/sync_docs_site.py:46-47 | a match is a line start, two whitespace characters, `#` and optional whitespace for a commented line, then the assignment |
| ConfigKeys.MatchAtFinds | scripts/sync_docs_site.py:46-47 | every line of either shape is matched, with exactly the name it holds |
| ConfigKeys.MatchAtStart | scripts/sync_docs_site.py:46-47 | a match needs a line start, two whitespace characters, then `#` (commented) or a name's first character (active) |
| ConfigKeys.ThreeSpacesNoMatch | scripts/sync_docs_site.py:46-47 | a line indented by three whitespace characters matches neither pattern at its own line start |
| ConfigKeys.BlankLineIndents | scripts/sync_docs_site.py:47 | `\n x = 1` matches the active pattern at 0: a line break and a space count as the two-character indent |
| ConfigKeys.BareCommentThenIndented | scripts/sync_docs_site.py:46 | `  #\n   x = 1` matches the commented pattern at 0 and captures `x`: the `\s*` after `#` crosses the line break |
| ConfigKeys.CommentWithoutSpace | scripts/sync_docs_site.py:46 | `  #a=1` matches the commented pattern, capturing `a` |
| ConfigKeys.NoMatchInside | scripts/sync_docs_site.py:46-50 | no match of a pattern starts inside an earlier match of the same pattern |
| ConfigKeys.AttemptsResumable | scripts/sync_docs_site.py:46-50 | every match ends after its start, within the text, and no match overlaps another of the same pattern |
| ConfigKeys.FindIterIsEveryMatch | scripts/sync_docs_site.py:50 | resuming after each match, as `finditer` does, yields the names of every successful attempt, in order |
| ConfigKeys.EveryMatchSound | scripts/sync_docs_site.py:50-51 | every name the scan yields is captured by some successful attempt |
| ConfigKeys.EveryMatchComplete | scripts/sync_docs_site.py:50-51 | every successful attempt's name is yielded by the scan |
| ConfigKeys.CapturesMember | scripts/sync_docs_site.py:50-51 | a name is among a pattern's captures exactly when the pattern matches it at some position |
| ConfigKeys.CapturesOfPatterns | scripts/sync_docs_site.py:45-50 | the commented pass comes first, then the active pass |
| ConfigKeys.ConfigurationKeysMember | scripts/sync_docs_site.py:45-57 | a name is reported exactly when it is not a block keyword and either pattern captures it somewhere |
| ConfigKeys.MatchedIdentifier | scripts/sync_docs_site.py:46-51 | whatever either pattern captures is an identifier |
| ConfigKeys.ConfigurationKeysShape | scripts/sync_docs_site.py:41-57 | every reported key is an identifier and not a block keyword, and no key appears twice |
| ConfigKeys.CommentedKeysFirst | scripts/sync_docs_site.py:45-56 | the keys are the commented keys in first-seen order, then the active keys never seen commented, in first-seen order |
| ConfigKeys.CommentedSuppressesActive | scripts/sync_docs_site.py:45-56 | a name captured on a commented line is listed among the commented keys and never again after them |
| ConfigKeys.ConfigurationKeysOrder | scripts/sync_docs_site.py:54-56 | reported keys are ordered by where their names were first captured |
| ConfigKeys.KeysStep | scripts/sync_docs_site.py:52-56 | one more capture is appended exactly when it is not a block keyword and not yet listed |
| ConfigKeys.AddKeyStep | scripts/sync_docs_site.py:52-56 | the inner loop's body keeps the list equal to the reference and `seen` equal to the set of listed keys |
| ConfigKeys.AddKeys | scripts/sync_docs_site.py:50-56 | the inner loop extends the list to the reference listing of all captures so far, with `seen` holding exactly the listed keys |
| ConfigKeys.ExtractConfigurationKeys | scripts/sync_docs_site.py:41-57 | the result is the de-duplicated, keyword-free captures of both passes in order, with no duplicates and no block keyword |
| Site.IndexShape | scripts/sync_docs_site.py:70-78 | `index.md` starts with `# kube-hetzner` and ends with exactly one `\n` after a non-space character |
| Site.IndexOfBlocks | scripts/sync_docs_site.py:70-78 | with an architecture block ending in a non-space character, `index.md` is the five blocks separated by empty lines, none omitted, ended with `\n` |
| Site.IndexOfNothing | scripts/sync_docs_site.py:70-78 | with all three README blocks empty, `index.md` is the title and the notice |
| Site.Bullets | scripts/sync_docs_site.py:81 | one `` - `key` `` row per key, in the keys' order |
| Site.SplitJoined | scripts/sync_docs_site.py:81 | rows joined by `\n` and ended with `\n` split back into the same rows |
| Site.RowsLines | scripts/sync_docs_site.py:81-86 | the bullet block is one line per key, or a single empty line when there are none |
| Site.ConfigLines | scripts/sync_docs_site.py:82-87 | the lines of `configuration.md` are the fixed header lines, then one bullet per key in order |
| Site.GeneratedConfigLines | scripts/sync_docs_site.py:80-87 | for any `kube.tf.example`, the page's lines are the header and one bullet per reported key |
| Site.Generate | scripts/sync_docs_site.py:66-87 | both page contents computed from the extractors' results; `index.md` opens with the title and ends with `\n` |

## Left out

- Reading and writing files, creating the site directory, the path constants and the `__main__` guard (scripts/sync_docs_site.py:9-12, 61-64, 89-94). `Site.Generate` takes the two texts as parameters and returns the two page contents.
- UTF-8 decoding and encoding: texts are sequences of characters.
- A general regular-expression engine. Only the three fixed patterns are modelled, each by hand. `re.escape(heading)` is modelled as a literal comparison with the heading.
- `x or ""` is the identity on strings, so it is not modelled separately.
- Section.SectionStopsAtNextHeading: states the `## Quick Start\nStep 1\n\n## Other\nX` example for every heading, one-line body and following heading, rather than evaluating that literal.
- ConfigKeys.CommentedSuppressesActive: covers the `  # replicas = 3\n  replicas = 5\n  module = "x"` example as a general statement about any name captured on a commented line. No lemma evaluates the key list of that literal text.
- Markdown rendering and the site build, which this script does not perform.
