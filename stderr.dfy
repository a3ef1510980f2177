/**
 Triage of what ESLint writes on standard error (`ESLint.on_stderr`): the
 level the output is logged at and whether the host is told that the lint
 run failed.
 */
module Stderr {

  datatype Level = Warning | Error

  datatype Triage = Triage(level: Level, notifyFailure: bool)

  /** The text `missing_config_regex` looks for, without its final `.`. */
  const MissingConfigText := "ESLint couldn't find a configuration file"

  /** The marker taken for a deprecation notice. */
  const DeprecationMarker := "in the next version"

  /** A character of the class `\w`, restricted to ASCII. */
  predicate IsWordChar(c: char) {
    'a' <= c <= 'z' || 'A' <= c <= 'Z' || '0' <= c <= '9' || c == '_'
  }

  /** Python's `t in s` on strings. */
  predicate Contains(s: string, t: string) {
    exists i :: 0 <= i <= |s| && t <= s[i..]
  }

  /**
   `missing_config_regex.match(s)`, the pattern
   `^(.*?)\r?\n\w*(ESLint couldn't find a configuration file.)` under
   DOTALL: some newline at `k`, word characters up to `j`, then the text
   and one more character of any kind (the unescaped `.`). The optional
   `\r` adds nothing, since `.*?` may take it.
   */
  predicate MissingConfigMatch(s: string) {
    exists k, j :: 0 <= k < j <= |s| && MatchesAt(s, k, j)
  }

  /** The newline at `k` and the text at `j`, with word characters between. */
  predicate MatchesAt(s: string, k: int, j: int)
    requires 0 <= k < j <= |s|
  {
    s[k] == '\n' &&
    (forall w :: k < w < j ==> IsWordChar(s[w])) &&
    |s| - j > |MissingConfigText| &&
    MissingConfigText <= s[j..]
  }

  /** `on_stderr`: the three cases, tried in the source's order. */
  function OnStderr(output: string): (t: Triage)
    ensures MissingConfigMatch(output) ==> t == Triage(Warning, true)
    ensures !MissingConfigMatch(output) && Contains(output, DeprecationMarker) ==> t == Triage(Warning, false)
    ensures !MissingConfigMatch(output) && !Contains(output, DeprecationMarker) ==> t == Triage(Error, true)
    ensures t.level == Error ==> t.notifyFailure
    ensures !t.notifyFailure <==> !MissingConfigMatch(output) && Contains(output, DeprecationMarker)
  {
    if MissingConfigMatch(output) then Triage(Warning, true)
    else if Contains(output, DeprecationMarker) then Triage(Warning, false)
    else Triage(Error, true)
  }

  /**
   Whatever precedes it (ESLint's "Oops! Something went wrong!" banner, a
   `\r` of a Windows line ending), a newline followed by word characters and
   the configuration report makes a match, and the output is demoted to a
   warning that still notifies failure.
   */
  lemma ReportAfterAnything(p: string, w: string, c: char, rest: string)
    requires forall i :: 0 <= i < |w| ==> IsWordChar(w[i])
    ensures MissingConfigMatch(p + "\n" + w + MissingConfigText + [c] + rest)
    ensures OnStderr(p + "\n" + w + MissingConfigText + [c] + rest) == Triage(Warning, true)
  {
    var s := p + "\n" + w + MissingConfigText + [c] + rest;
    var k, j := |p|, |p| + 1 + |w|;
    assert s[k] == '\n';
    assert forall i :: k < i < j ==> s[i] == w[i - k - 1];
    assert s[j..] == MissingConfigText + [c] + rest;
    assert MatchesAt(s, k, j);
  }

  /** Cuts `s` around a newline at `k` and a copy of `t` at `j`. */
  lemma Pieces(s: string, k: int, j: int, t: string) returns (p: string, w: string, c: char, rest: string)
    requires 0 <= k < j && j + |t| < |s| && s[k] == '\n' && t <= s[j..]
    ensures w == s[k + 1..j] && s == p + "\n" + w + t + [c] + rest
  {
    p, w, c, rest := s[..k], s[k + 1..j], s[j + |t|], s[j + |t| + 1..];
    assert s[j..j + |t|] == t;
    assert s == s[..k] + [s[k]] + s[k + 1..j] + s[j..j + |t|] + [s[j + |t|]] + s[j + |t| + 1..];
  }

  /**
   The converse of `ReportAfterAnything`: every match is some text, a
   newline, word characters, the report and one more character, then
   anything.
   */
  lemma MatchHasReportShape(s: string) returns (p: string, w: string, c: char, rest: string)
    requires MissingConfigMatch(s)
    ensures forall i :: 0 <= i < |w| ==> IsWordChar(w[i])
    ensures s == p + "\n" + w + MissingConfigText + [c] + rest
  {
    var k, j :| 0 <= k < j <= |s| && MatchesAt(s, k, j);
    p, w, c, rest := Pieces(s, k, j, MissingConfigText);
  }

  /** `re.match` anchors only at the start: output after a match does not undo it. */
  lemma {:induction false} MatchIgnoresLaterOutput(s: string, rest: string)
    requires MissingConfigMatch(s)
    ensures MissingConfigMatch(s + rest)
  {
    var k, j :| 0 <= k < j <= |s| && MatchesAt(s, k, j);
    var t := s + rest;
    assert t[k] == s[k];
    assert forall w :: k < w < j ==> t[w] == s[w];
    assert t[j..] == s[j..] + rest;
    assert MatchesAt(t, k, j);
  }

  /**
   Output of a single line never matches: the pattern needs a newline ahead
   of the report, so the report at the very start of the output is not
   recognised.
   */
  lemma NoNewlineNoMatch(s: string)
    requires forall i :: 0 <= i < |s| ==> s[i] != '\n'
    ensures !MissingConfigMatch(s)
  {
  }

  /** A single line ending in the deprecation marker is a warning without a failure notice. */
  lemma DeprecationLine(p: string)
    requires forall i :: 0 <= i < |p| ==> p[i] != '\n'
    ensures OnStderr(p + DeprecationMarker) == Triage(Warning, false)
  {
    var s := p + DeprecationMarker;
    assert forall i :: |p| <= i < |s| ==> s[i] == DeprecationMarker[i - |p|];
    NoNewlineNoMatch(s);
    assert s[|p|..] == DeprecationMarker;
  }
}
