/**
 * The keys of `kube.tf.example` (`_extract_configuration_keys`): the names
 * assigned on lines indented by two whitespace characters, first the
 * commented-out ones (`  # name =`), then the active ones (`  name =`),
 * without Terraform block keywords and each name once, where it first
 * appears.
 */
module ConfigKeys {
  import opened Options
  import opened Text
  import opened Seqs

  /** The two patterns: `^\s{2}#\s*NAME\s*=` and `^\s{2}NAME\s*=`, both under `re.MULTILINE`. */
  datatype Pattern = Commented | Active

  /** A match: the captured name, where it starts, and where the match ends (just after `=`). */
  datatype Match = Match(key: string, keyStart: nat, end: nat)

  /** `[a-zA-Z_]` */
  predicate IsIdentStart(c: char) {
    ('a' <= c <= 'z') || ('A' <= c <= 'Z') || c == '_'
  }

  /** `[a-zA-Z0-9_]` */
  predicate IsIdentChar(c: char) {
    IsIdentStart(c) || ('0' <= c <= '9')
  }

  /** A name the capture group can match. */
  predicate IsIdentifier(key: string) {
    key != [] && IsIdentStart(key[0]) && forall x :: 0 < x < |key| ==> IsIdentChar(key[x])
  }

  /** Length of the run of name characters starting at `i` (what a greedy `[a-zA-Z0-9_]*` takes). */
  function IdentRun(s: string, i: nat): (n: nat)
    requires i <= |s|
    ensures i + n <= |s|
    ensures forall x {:trigger IsIdentChar(s[x])} :: i <= x < i + n ==> IsIdentChar(s[x])
    ensures i + n == |s| || !IsIdentChar(s[i + n])
    decreases |s| - i
  {
    if i < |s| && IsIdentChar(s[i]) then 1 + IdentRun(s, i + 1) else 0
  }

  /** A run of name characters ended by another character is the one `IdentRun` measures. */
  lemma IdentRunEnds(s: string, i: nat, j: nat)
    requires i <= j < |s| && !IsIdentChar(s[j])
    requires forall x {:trigger IsIdentChar(s[x])} :: i <= x < j ==> IsIdentChar(s[x])
    ensures i + IdentRun(s, i) == j
  {
  }

  /** `([a-zA-Z_][a-zA-Z0-9_]*)\s*=` matched with the name in `s[i..j]` and the `=` at `k`. */
  predicate AssignmentShape(s: string, i: nat, j: nat, k: nat) {
    i < j <= k < |s| && IsIdentStart(s[i]) && (forall x {:trigger IsIdentChar(s[x])} :: i < x < j ==> IsIdentChar(s[x]))
    && AllSpace(s, j, k) && s[k] == '='
  }

  /** The name and `=` tried at `i`; the greedy name and `\s*` leave nothing to backtrack into. */
  function AssignmentAt(s: string, i: nat): (r: Option<Match>)
    requires i <= |s|
    ensures r.Some? ==> r.value.keyStart == i < r.value.end <= |s|
  {
    if i < |s| && IsIdentStart(s[i]) then
      var j := i + 1 + IdentRun(s, i + 1);
      var k := j + SpaceRun(s, j);
      if k < |s| && s[k] == '=' then Some(Match(s[i..j], i, k + 1)) else None
    else
      None
  }

  /** A successful try is an assignment shape, and the name is what it captured. */
  lemma AssignmentAtShape(s: string, i: nat)
    requires i <= |s| && AssignmentAt(s, i).Some?
    ensures var m := AssignmentAt(s, i).value;
      i + |m.key| < m.end && m.key == s[i..i + |m.key|] && AssignmentShape(s, i, i + |m.key|, m.end - 1)
  {
  }

  /** In an assignment shape the name and the gap are maximal runs. */
  lemma AssignmentRuns(s: string, i: nat, j: nat, k: nat)
    requires AssignmentShape(s, i, j, k)
    ensures i + 1 + IdentRun(s, i + 1) == j && j + SpaceRun(s, j) == k
  {
    assert !IsIdentChar(s[j]) by {
      if j < k {
        assert IsSpace(s[j]);
      }
    }
    IdentRunEnds(s, i + 1, j);
    SpaceRunEnds(s, j, k);
  }

  /** The try at `i` follows the runs to the `=`. */
  lemma AssignmentAtRuns(s: string, i: nat, j: nat, k: nat)
    requires i < j <= k < |s| && IsIdentStart(s[i]) && s[k] == '='
    requires i + 1 + IdentRun(s, i + 1) == j && j + SpaceRun(s, j) == k
    ensures AssignmentAt(s, i) == Some(Match(s[i..j], i, k + 1))
  {
  }

  /** An assignment shape leaves the matcher one choice: the whole name, the whole gap and the `=`. */
  lemma AssignmentAtFinds(s: string, i: nat, j: nat, k: nat)
    requires AssignmentShape(s, i, j, k)
    ensures AssignmentAt(s, i) == Some(Match(s[i..j], i, k + 1))
  {
    AssignmentRuns(s, i, j, k);
    AssignmentAtRuns(s, i, j, k);
  }

  /** The captured name is an identifier. */
  lemma AssignmentKey(s: string, i: nat, j: nat, k: nat)
    requires AssignmentShape(s, i, j, k)
    ensures IsIdentifier(s[i..j])
  {
    var key := s[i..j];
    assert key[0] == s[i];
    forall x | 0 < x < |key| ensures IsIdentChar(key[x]) {
      assert key[x] == s[i + x];
    }
  }

  /** What comes before the name: `^\s{2}`, then for a commented line `#\s*`; the name starts at `i`. */
  predicate PrefixShape(pat: Pattern, s: string, p: nat, i: nat) {
    LineStart(s, p) && p + 2 <= i <= |s| && IsSpace(s[p]) && IsSpace(s[p + 1])
    && match pat
       case Active => i == p + 2
       case Commented => p + 2 < i && s[p + 2] == '#' && AllSpace(s, p + 3, i)
  }

  /** One pattern tried at `p`. */
  function MatchAt(pat: Pattern, s: string, p: nat): (r: Option<Match>)
    requires p <= |s|
    ensures r.Some? ==> p + 2 <= r.value.keyStart < r.value.end <= |s|
  {
    if !LineStart(s, p) || p + 2 > |s| || !IsSpace(s[p]) || !IsSpace(s[p + 1]) then None
    else
      match pat
      case Active => AssignmentAt(s, p + 2)
      case Commented =>
        if p + 2 < |s| && s[p + 2] == '#' then AssignmentAt(s, p + 3 + SpaceRun(s, p + 3)) else None
  }

  /** A successful try is a prefix shape followed by an assignment shape holding the captured name. */
  lemma MatchAtShape(pat: Pattern, s: string, p: nat)
    requires p <= |s| && MatchAt(pat, s, p).Some?
    ensures var m := MatchAt(pat, s, p).value;
      PrefixShape(pat, s, p, m.keyStart) && AssignmentAt(s, m.keyStart) == Some(m)
  {
  }

  /** A line of either shape is matched, with exactly the name it holds. */
  lemma MatchAtFinds(pat: Pattern, s: string, p: nat, i: nat, j: nat, k: nat)
    requires PrefixShape(pat, s, p, i) && AssignmentShape(s, i, j, k)
    ensures MatchAt(pat, s, p) == Some(Match(s[i..j], i, k + 1))
  {
    AssignmentAtFinds(s, i, j, k);
    if pat == Commented {
      CommentedFinds(s, p, i);
    } else {
      ActiveFinds(s, p, i);
    }
  }

  /** An active line's prefix leads the matcher to the name at `i`. */
  lemma ActiveFinds(s: string, p: nat, i: nat)
    requires PrefixShape(Active, s, p, i)
    ensures MatchAt(Active, s, p) == AssignmentAt(s, i)
  {
  }

  /** A commented line's prefix leads the matcher to the name at `i`. */
  lemma CommentedFinds(s: string, p: nat, i: nat)
    requires PrefixShape(Commented, s, p, i) && i < |s| && IsIdentStart(s[i])
    ensures MatchAt(Commented, s, p) == AssignmentAt(s, i)
  {
    CommentGap(s, p, i);
  }

  /** On a commented line, the greedy `\s*` after `#` stops exactly at the name. */
  lemma CommentGap(s: string, p: nat, i: nat)
    requires PrefixShape(Commented, s, p, i) && i < |s| && IsIdentStart(s[i])
    ensures p + 3 + SpaceRun(s, p + 3) == i
  {
    assert !IsSpace(s[i]);
    SpaceRunEnds(s, p + 3, i);
  }

  /** What any match needs at its start: a line start, two whitespace characters, then `#` or a name. */
  lemma MatchAtStart(pat: Pattern, s: string, p: nat)
    requires p <= |s| && MatchAt(pat, s, p).Some?
    ensures LineStart(s, p) && p + 2 < |s| && IsSpace(s[p]) && IsSpace(s[p + 1])
    ensures pat == Commented ==> s[p + 2] == '#'
    ensures pat == Active ==> IsIdentStart(s[p + 2])
  {
  }

  /** Where a pattern cannot match at `q`: no line start, no two whitespace characters, or the wrong character after them. */
  predicate Blocked(pat: Pattern, s: string, q: nat) {
    !LineStart(s, q) || q + 2 >= |s| || !IsSpace(s[q]) || !IsSpace(s[q + 1])
    || (pat == Commented && s[q + 2] != '#') || (pat == Active && !IsIdentStart(s[q + 2]))
  }

  /** A blocked position yields no match. */
  lemma MatchAtBlocked(pat: Pattern, s: string, q: nat)
    requires q <= |s| && Blocked(pat, s, q)
    ensures MatchAt(pat, s, q).None?
  {
  }

  /** A line indented by three whitespace characters matches neither pattern at its own line start. */
  lemma ThreeSpacesNoMatch(pat: Pattern, s: string, q: nat)
    requires q + 2 < |s| && IsSpace(s[q + 2])
    ensures MatchAt(pat, s, q).None?
  {
    MatchAtBlocked(pat, s, q);
  }

  /** Inside the prefix, up to the name's first character, no pattern can start again. */
  lemma BlockedInPrefix(pat: Pattern, s: string, p: nat, i: nat, q: nat)
    requires PrefixShape(pat, s, p, i) && i < |s| && IsIdentStart(s[i]) && p < q <= i
    ensures Blocked(pat, s, q)
  {
    assert s[p + 2] == '#' || (pat == Active && IsIdentStart(s[p + 2]));
    if q == p + 1 {
      assert !IsSpace(s[q + 1]);
    } else if q == p + 2 {
      assert !IsSpace(s[q]);
    } else if q == p + 3 {
      assert !LineStart(s, q);
    } else if q <= i - 2 {
      assert IsSpace(s[q + 2]) || q + 2 == i;
    } else if q == i - 1 {
      assert !IsSpace(s[q + 1]);
    } else {
      assert !IsSpace(s[q]);
    }
  }

  /** Just after a name character no line starts. */
  lemma BlockedInName(pat: Pattern, s: string, i: nat, j: nat, q: nat)
    requires i < q <= j <= |s| && IsIdentStart(s[i])
    requires forall x {:trigger IsIdentChar(s[x])} :: i < x < j ==> IsIdentChar(s[x])
    ensures Blocked(pat, s, q)
  {
    assert IsIdentChar(s[q - 1]);
  }

  /** In the gap before `=`, and at the `=`, no pattern can start. */
  lemma BlockedInGap(pat: Pattern, s: string, j: nat, k: nat, q: nat)
    requires j < q <= k < |s| && AllSpace(s, j, k) && s[k] == '='
    ensures Blocked(pat, s, q)
  {
    if q == k {
      assert !IsSpace(s[q]);
    } else if q == k - 1 {
      assert !IsSpace(s[q + 1]);
    } else {
      assert s[q + 2] == '=' || IsSpace(s[q + 2]);
    }
  }

  /** `\s{2}` also matches a line break: a one-space line just after an empty line counts as indented. */
  lemma BlankLineIndents()
    ensures MatchAt(Active, "\n x = 1", 0) == Some(Match("x", 2, 5))
  {
    var s := "\n x = 1";
    assert PrefixShape(Active, s, 0, 2);
    assert AssignmentShape(s, 2, 3, 4);
    MatchAtFinds(Active, s, 0, 2, 3, 4);
    assert s[2..3] == "x";
  }

  /** The prefix of `  #\n   x = 1`: two spaces, `#`, then a line break and three spaces before the name. */
  lemma BareCommentPrefix()
    ensures PrefixShape(Commented, "  #\n   x = 1", 0, 7)
  {
    var s := "  #\n   x = 1";
    assert IsSpace(s[3]) && IsSpace(s[4]) && IsSpace(s[5]) && IsSpace(s[6]);
  }

  /** The assignment in `  #\n   x = 1`: the name `x`, a space, then `=`. */
  lemma BareCommentAssignment()
    ensures AssignmentShape("  #\n   x = 1", 7, 8, 9) && "  #\n   x = 1"[7..8] == "x"
  {
  }

  /**
   * The `\s*` after `#` also crosses line breaks: after a bare `  #` line, a
   * key indented by three spaces is captured by the commented pattern.
   */
  lemma BareCommentThenIndented()
    ensures MatchAt(Commented, "  #\n   x = 1", 0) == Some(Match("x", 7, 10))
  {
    BareCommentPrefix();
    BareCommentAssignment();
    MatchAtFinds(Commented, "  #\n   x = 1", 0, 7, 8, 9);
  }

  /** Neither a space after `#` nor around `=` is needed. */
  lemma CommentWithoutSpace()
    ensures MatchAt(Commented, "  #a=1", 0) == Some(Match("a", 3, 5))
  {
    var s := "  #a=1";
    assert PrefixShape(Commented, s, 0, 3);
    assert AssignmentShape(s, 3, 4, 4);
    MatchAtFinds(Commented, s, 0, 3, 4, 4);
    assert s[3..4] == "a";
  }

  /** No match of a pattern starts inside an earlier match of the same pattern. */
  lemma NoMatchInside(pat: Pattern, s: string, p: nat, q: nat)
    requires p <= |s| && MatchAt(pat, s, p).Some? && p < q < MatchAt(pat, s, p).value.end
    ensures MatchAt(pat, s, q).None?
  {
    var m := MatchAt(pat, s, p).value;
    MatchAtShape(pat, s, p);
    AssignmentAtShape(s, m.keyStart);
    BlockedInMatch(pat, s, p, m.keyStart, m.keyStart + |m.key|, m.end - 1, q);
    MatchAtBlocked(pat, s, q);
  }

  /** Past the start of a line of either shape and up to its `=`, no pattern can start. */
  lemma BlockedInMatch(pat: Pattern, s: string, p: nat, i: nat, j: nat, k: nat, q: nat)
    requires PrefixShape(pat, s, p, i) && AssignmentShape(s, i, j, k) && p < q <= k
    ensures Blocked(pat, s, q)
  {
    if q <= i {
      BlockedInPrefix(pat, s, p, i, q);
    } else if q <= j {
      BlockedInName(pat, s, i, j, q);
    } else {
      BlockedInGap(pat, s, j, k, q);
    }
  }

  /** The pattern tried at every position of `s`, the end of the text included. */
  function Attempts(pat: Pattern, s: string): (t: seq<Option<Match>>)
    ensures |t| == |s| + 1
    ensures forall x :: 0 <= x <= |s| ==> t[x] == MatchAt(pat, s, x)
  {
    seq(|s| + 1, x requires 0 <= x <= |s| => MatchAt(pat, s, x))
  }

  /** Every match in a table of attempts ends after its start and inside the text. */
  predicate Resumable(t: seq<Option<Match>>) {
    forall x :: 0 <= x < |t| && t[x].Some? ==> x < t[x].value.end < |t|
  }

  /** No attempt succeeds strictly inside a successful one. */
  predicate NoOverlap(t: seq<Option<Match>>) {
    forall x, y :: 0 <= x < y < |t| && t[x].Some? && y < t[x].value.end ==> t[y].None?
  }

  /** `finditer` from `p` over the attempts: after a match the scan resumes where it ended. */
  function FindIter(t: seq<Option<Match>>, p: nat): seq<string>
    requires Resumable(t) && p < |t|
    decreases |t| - p
  {
    match t[p]
    case Some(m) => [m.key] + FindIter(t, m.end)
    case None => if p + 1 == |t| then [] else FindIter(t, p + 1)
  }

  /** The reference scan: the names of every successful attempt from `p` on, in order. */
  function EveryMatch(t: seq<Option<Match>>, p: nat): seq<string>
    requires p < |t|
    decreases |t| - p
  {
    var rest := if p + 1 == |t| then [] else EveryMatch(t, p + 1);
    match t[p]
    case Some(m) => [m.key] + rest
    case None => rest
  }

  /** Failed attempts add nothing to the reference scan. */
  lemma {:induction false} EveryMatchSkips(t: seq<Option<Match>>, p: nat, q: nat)
    requires p <= q < |t|
    requires forall x :: p <= x < q ==> t[x].None?
    ensures EveryMatch(t, p) == EveryMatch(t, q)
    decreases q - p
  {
    if p < q {
      EveryMatchSkips(t, p + 1, q);
    }
  }

  /** After a match the reference scan reports nothing more until the match's end. */
  lemma EveryMatchAfterMatch(t: seq<Option<Match>>, p: nat)
    requires Resumable(t) && NoOverlap(t) && p < |t| && t[p].Some?
    ensures EveryMatch(t, p) == [t[p].value.key] + EveryMatch(t, t[p].value.end)
  {
    EveryMatchSkips(t, p + 1, t[p].value.end);
  }

  /** Resuming after each match loses nothing: `finditer` sees every match the reference scan sees. */
  lemma {:induction false} FindIterIsEveryMatch(t: seq<Option<Match>>, p: nat)
    requires Resumable(t) && NoOverlap(t) && p < |t|
    ensures FindIter(t, p) == EveryMatch(t, p)
    decreases |t| - p
  {
    match t[p]
    case Some(m) =>
      EveryMatchAfterMatch(t, p);
      FindIterIsEveryMatch(t, m.end);
    case None =>
      if p + 1 < |t| {
        FindIterIsEveryMatch(t, p + 1);
      }
  }

  /** Every name the reference scan reports is that of a successful attempt at or after `p`. */
  lemma {:induction false} EveryMatchSound(t: seq<Option<Match>>, p: nat, key: string)
    requires p < |t| && key in EveryMatch(t, p)
    ensures exists q :: p <= q < |t| && t[q].Some? && t[q].value.key == key
    decreases |t| - p
  {
    if !(t[p].Some? && t[p].value.key == key) {
      EveryMatchSound(t, p + 1, key);
    }
  }

  /** Every successful attempt at or after `p` has its name in the reference scan. */
  lemma {:induction false} EveryMatchComplete(t: seq<Option<Match>>, p: nat, q: nat)
    requires p <= q < |t| && t[q].Some?
    ensures t[q].value.key in EveryMatch(t, p)
    decreases q - p
  {
    if p < q {
      EveryMatchComplete(t, p + 1, q);
    }
  }

  /** The attempts of either pattern can be resumed after and do not overlap. */
  lemma AttemptsResumable(pat: Pattern, s: string)
    ensures Resumable(Attempts(pat, s)) && NoOverlap(Attempts(pat, s))
  {
    var t := Attempts(pat, s);
    forall x, y | 0 <= x < y < |t| && t[x].Some? && y < t[x].value.end ensures t[y].None? {
      NoMatchInside(pat, s, x, y);
    }
  }

  /** `[m.group(1) for m in pattern.finditer(s)]` */
  function Captures(pat: Pattern, s: string): seq<string> {
    AttemptsResumable(pat, s);
    FindIter(Attempts(pat, s), 0)
  }

  /** Terraform block keywords, never reported as keys. */
  const ReservedKeys: set<string> := {"module", "variable", "locals", "output", "resource", "data", "terraform"}

  /** A captured name that is reported. */
  predicate Listed(key: string) {
    key !in ReservedKeys
  }

  /** The patterns in the order they are applied: commented-out settings first. */
  const Patterns: seq<Pattern> := [Commented, Active]

  /** The names each pattern in `pats` captures, pattern after pattern. */
  function CapturesOf(pats: seq<Pattern>, s: string): seq<string> {
    if pats == [] then []
    else CapturesOf(pats[..|pats| - 1], s) + Captures(pats[|pats| - 1], s)
  }

  /** The keys `_extract_configuration_keys` returns. */
  function ConfigurationKeys(s: string): seq<string> {
    Dedup(Filter(CapturesOf(Patterns, s), Listed))
  }

  /** The names captured by the two patterns: every commented-out one, then every active one. */
  lemma CapturesOfPatterns(s: string)
    ensures CapturesOf(Patterns, s) == Captures(Commented, s) + Captures(Active, s)
  {
    assert Patterns[..1] == [Commented];
    assert CapturesOf([Commented], s) == CapturesOf([], s) + Captures(Commented, s);
    assert CapturesOf(Patterns, s) == CapturesOf([Commented], s) + Captures(Active, s);
  }

  /** Something a pattern captures at some position of `s`. */
  predicate MatchedSomewhere(s: string, key: string) {
    exists pat: Pattern, q: nat :: q <= |s| && MatchAt(pat, s, q).Some? && MatchAt(pat, s, q).value.key == key
  }

  /** Either pattern's scan holds exactly the names that pattern captures somewhere. */
  lemma CapturesMember(pat: Pattern, s: string, key: string)
    ensures key in Captures(pat, s) <==> exists q: nat :: q <= |s| && MatchAt(pat, s, q).Some? && MatchAt(pat, s, q).value.key == key
  {
    var t := Attempts(pat, s);
    AttemptsResumable(pat, s);
    FindIterIsEveryMatch(t, 0);
    if key in EveryMatch(t, 0) {
      EveryMatchSound(t, 0, key);
      var q :| 0 <= q < |t| && t[q].Some? && t[q].value.key == key;
      assert t[q] == MatchAt(pat, s, q);
    }
    if exists q: nat :: q <= |s| && MatchAt(pat, s, q).Some? && MatchAt(pat, s, q).value.key == key {
      var q: nat :| q <= |s| && MatchAt(pat, s, q).Some? && MatchAt(pat, s, q).value.key == key;
      assert t[q] == MatchAt(pat, s, q);
      EveryMatchComplete(t, 0, q);
    }
  }

  /** A key is reported exactly when one of the patterns captures it and it is not a block keyword. */
  lemma ConfigurationKeysMember(s: string, key: string)
    ensures key in ConfigurationKeys(s) <==> Listed(key) && MatchedSomewhere(s, key)
  {
    var all := CapturesOf(Patterns, s);
    DedupMember(Filter(all, Listed), key);
    FilterMember(all, Listed, key);
    CapturedSomewhere(s, key);
  }

  /** The scans of both patterns together hold exactly the names captured somewhere. */
  lemma CapturedSomewhere(s: string, key: string)
    ensures key in CapturesOf(Patterns, s) <==> MatchedSomewhere(s, key)
  {
    CapturesOfPatterns(s);
    CapturesMember(Commented, s, key);
    CapturesMember(Active, s, key);
  }

  /** Whatever a pattern captures is an identifier. */
  lemma MatchedIdentifier(pat: Pattern, s: string, q: nat)
    requires q <= |s| && MatchAt(pat, s, q).Some?
    ensures IsIdentifier(MatchAt(pat, s, q).value.key)
  {
    var m := MatchAt(pat, s, q).value;
    MatchAtShape(pat, s, q);
    AssignmentAtIdentifier(s, m.keyStart);
  }

  /** The name a successful try at `i` captures is an identifier. */
  lemma AssignmentAtIdentifier(s: string, i: nat)
    requires i <= |s| && AssignmentAt(s, i).Some?
    ensures IsIdentifier(AssignmentAt(s, i).value.key)
  {
    var m := AssignmentAt(s, i).value;
    AssignmentAtShape(s, i);
    AssignmentKey(s, i, i + |m.key|, m.end - 1);
  }

  /** Every reported key is an identifier, appears once, and is not a block keyword. */
  lemma ConfigurationKeysShape(s: string)
    ensures var keys := ConfigurationKeys(s);
      (forall a :: 0 <= a < |keys| ==> IsIdentifier(keys[a]) && Listed(keys[a]))
      && (forall a, b :: 0 <= a < b < |keys| ==> keys[a] != keys[b])
  {
    var keys := ConfigurationKeys(s);
    forall a | 0 <= a < |keys| ensures IsIdentifier(keys[a]) && Listed(keys[a]) {
      ConfigurationKeysMember(s, keys[a]);
      var pat: Pattern, q: nat :| q <= |s| && MatchAt(pat, s, q).Some? && MatchAt(pat, s, q).value.key == keys[a];
      MatchedIdentifier(pat, s, q);
    }
  }

  /** The keys of the commented-out settings, each once, in the order they first appear. */
  function CommentedKeys(s: string): seq<string> {
    Dedup(Filter(Captures(Commented, s), Listed))
  }

  /**
   * The reported keys are the commented-out keys followed by the active keys
   * that are not also commented out, each group in order of first appearance.
   */
  lemma CommentedKeysFirst(s: string)
    ensures var commented := Filter(Captures(Commented, s), Listed);
      ConfigurationKeys(s) == CommentedKeys(s) + Dedup(Filter(Filter(Captures(Active, s), Listed), k => k !in commented))
  {
    CapturesOfPatterns(s);
    FilterAppend(Captures(Commented, s), Captures(Active, s), Listed);
    DedupAppend(Filter(Captures(Commented, s), Listed), Filter(Captures(Active, s), Listed));
  }

  /**
   * A name that appears commented out is reported among the commented-out
   * keys, and an active setting of the same name adds nothing after them:
   * `  # replicas = 3\n  replicas = 5` reports `replicas` once, as a commented key.
   */
  lemma CommentedSuppressesActive(s: string, q: nat)
    requires q <= |s| && MatchAt(Commented, s, q).Some? && Listed(MatchAt(Commented, s, q).value.key)
    ensures var key := MatchAt(Commented, s, q).value.key;
      var keys := ConfigurationKeys(s);
      var n := |CommentedKeys(s)|;
      n <= |keys| && key in keys[..n] && key !in keys[n..]
  {
    var key := MatchAt(Commented, s, q).value.key;
    var commented := Filter(Captures(Commented, s), Listed);
    var unseen := k => k !in commented;
    var later := Filter(Filter(Captures(Active, s), Listed), unseen);
    CommentedKeysFirst(s);
    CapturesMember(Commented, s, key);
    FilterMember(Captures(Commented, s), Listed, key);
    DedupMember(commented, key);
    FilterMember(Filter(Captures(Active, s), Listed), unseen, key);
    DedupMember(later, key);
    var keys := ConfigurationKeys(s);
    assert keys == CommentedKeys(s) + Dedup(later);
    assert keys[..|CommentedKeys(s)|] == CommentedKeys(s);
    assert keys[|CommentedKeys(s)|..] == Dedup(later);
  }

  /** Two reported keys are in the order in which their names were first captured. */
  lemma ConfigurationKeysOrder(s: string, a: nat, b: nat)
    requires a < b < |ConfigurationKeys(s)|
    ensures var listed := Filter(CapturesOf(Patterns, s), Listed);
      var keys := ConfigurationKeys(s);
      FirstIndex(listed, keys[a]) < FirstIndex(listed, keys[b])
  {
    DedupFirstSeen(Filter(CapturesOf(Patterns, s), Listed), a, b);
  }

  /** `_extract_configuration_keys` */
  method ExtractConfigurationKeys(example: string) returns (keys: seq<string>)
    ensures keys == ConfigurationKeys(example)
    ensures forall a, b :: 0 <= a < b < |keys| ==> keys[a] != keys[b]
    ensures forall a :: 0 <= a < |keys| ==> keys[a] !in ReservedKeys
  {
    keys := [];
    var seen: set<string> := {};
    var patterns := Patterns;
    for n := 0 to |patterns|
      invariant keys == Dedup(Filter(CapturesOf(patterns[..n], example), Listed))
      invariant forall key :: key in seen <==> key in keys
    {
      ghost var before := CapturesOf(patterns[..n], example);
      assert patterns[..n + 1][..n] == patterns[..n];
      var found := Captures(patterns[n], example);
      keys, seen := AddKeys(keys, seen, before, found);
    }
    assert patterns[..|patterns|] == patterns;
  }

  /** One more captured name: it is kept exactly when it is not reserved and not yet listed. */
  lemma KeysStep(done: seq<string>, key: string)
    ensures var keys := Dedup(Filter(done, Listed));
      Dedup(Filter(done + [key], Listed)) == if Listed(key) && key !in keys then keys + [key] else keys
  {
    var listed := Filter(done, Listed);
    FilterAppendOne(done, Listed, key);
    if Listed(key) {
      assert Filter(done + [key], Listed) == listed + [key];
      DedupAppendOne(listed, key);
      DedupMember(listed, key);
    } else {
      assert Filter(done + [key], Listed) == listed;
    }
  }

  /**
   * One iteration of the inner loop: with `seen` holding exactly the listed
   * keys, appending an unseen, unreserved name (and skipping any other) keeps
   * the list equal to the reference and `seen` in step with it.
   */
  lemma AddKeyStep(keys: seq<string>, seen: set<string>, done: seq<string>, key: string)
    requires keys == Dedup(Filter(done, Listed))
    requires forall k :: k in seen <==> k in keys
    ensures Listed(key) && key !in seen ==> keys + [key] == Dedup(Filter(done + [key], Listed))
    ensures Listed(key) && key !in seen ==> forall k :: k in seen + {key} <==> k in keys + [key]
    ensures !(Listed(key) && key !in seen) ==> keys == Dedup(Filter(done + [key], Listed))
  {
    KeysStep(done, key);
  }

  /** The loop over one pattern's matches: unseen, unreserved names are appended and remembered. */
  method AddKeys(keys0: seq<string>, seen0: set<string>, ghost before: seq<string>, found: seq<string>)
    returns (keys: seq<string>, seen: set<string>)
    requires keys0 == Dedup(Filter(before, Listed))
    requires forall key :: key in seen0 <==> key in keys0
    ensures keys == Dedup(Filter(before + found, Listed))
    ensures forall key :: key in seen <==> key in keys
  {
    keys, seen := keys0, seen0;
    ghost var done := before;
    for j := 0 to |found|
      invariant done == before + found[..j]
      invariant keys == Dedup(Filter(done, Listed))
      invariant forall key :: key in seen <==> key in keys
    {
      var key := found[j];
      AddKeyStep(keys, seen, done, key);
      if Listed(key) && key !in seen {
        seen := seen + {key};
        keys := keys + [key];
      }
      PrefixSnoc(before, found, j);
      done := done + [key];
    }
    assert found[..|found|] == found;
  }
}
