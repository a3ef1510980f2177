# ESLint adapter for SublimeLinter: a Dafny model

This project models the translation logic of the SublimeLinter ESLint plugin, which lives in `ESLint` in `linter.py`. The plugin runs `eslint --format json` on the buffer. It then turns ESLint's report into the editor host's lint errors:

- **`find_errors`** (module `Diagnostics`). It walks the decoded per-file entries and their message records in order and skips every message whose text starts with `File ignored`. It shifts ESLint's 1-based line and column to 0-based, leaving a missing column missing. The rule id goes into the error slot for severity 2 and into the warning slot for severity 1. Each surviving message becomes one 7-tuple (`LintError`), with the raw record, the text and an empty `near` hint. Output that `json.loads` rejects is modelled as `None`, and it yields nothing.
- **`reposition_match`** (module `Spans`). It computes the highlighted region `(line, startCol, endCol)`:
  - the whole line when the column is missing or the message is fatal;
  - one character when ESLint gives no end;
  - otherwise the 0-based end column plus the lengths of the lines the span crosses.

  The host's view (`vv.select_line`) is a parameter of type `int -> string`. The lemmas show that this end column is an offset from the start of the first line into the joined line texts, and that it points at the character ESLint's `endLine`/`endColumn` names.
- **`on_stderr`** (module `Stderr`). It sorts standard-error output into three cases, tried in this order:
  - a missing-configuration report gives a warning and a failure notice;
  - a deprecation notice (`in the next version`) gives a warning only;
  - anything else gives an error and a failure notice.

  `missing_config_regex` is written out as a predicate over the string.

`Records` holds the data: `Message` (ESLint's record), `Entry`, `LintError`, and `JsonField`, which stands for a key that is absent, JSON `null`, or a value.

## Model

| member | source | states |
|---|---|---|
| `Diagnostics.ToLintError` | linter.py:73-86 | The record and the text pass through unchanged, and `near` is None. The output line plus one is ESLint's line. The column is present exactly when ESLint's is, and plus one it gives ESLint's. Severity 2 puts the rule id in the error slot with `''` as the warning. Severity 1 does the reverse. Any other severity leaves both `''`. At least one slot is always `''`. |
| `Diagnostics.RuleIdOf` | linter.py:74 | `get('ruleId', '')`: an absent key gives `''`, and a JSON `null` gives `None`, which happens exactly for `null`. A present id comes back unchanged. |
| `Diagnostics.Translated` | linter.py:69-87 | There are no more tuples than messages. Every tuple comes from an input message that is not a `File ignored` one, and it is exactly that message's translation. |
| `Diagnostics.TranslatedSingle` | linter.py:70-79 | A single message yields nothing if its text starts with `File ignored`, and otherwise exactly its own tuple. |
| `Diagnostics.TranslatedAppend` | linter.py:69-87 | Translating two message lists one after the other gives the first list's tuples followed by the second's, so input order is kept. With `TranslatedSingle`, each message yields exactly its own tuple or nothing. |
| `Diagnostics.TranslatedComplete` | linter.py:68-87 | Every message that is not ignored has its tuple among those yielded. |
| `Diagnostics.EntryOrder` | linter.py:68-69 | The tuples of a sequence of entries are each entry's tuples, in entry order. |
| `Diagnostics.FlattenAppend` | linter.py:68-69 | The messages of two entry lists laid end to end are the first list's messages followed by the second's. |
| `Diagnostics.FindErrors` | linter.py:52-87 | Output that fails to decode yields no tuples. Otherwise the nested loops yield exactly the translation of all messages, entry after entry, each entry's messages in order. |
| `Spans.RepositionMatch` | linter.py:89-108 | A missing column or a fatal message gives `(line, 0, length of the line)`. Otherwise the start line and column come back unchanged. The end column is `endColumn - 1` (default `col + 1`) plus the lengths of lines `line` .. `endLine - 2`. No length is added when the end line is not after the start line. With no end given the span is `(line, col, col + 1)`. |
| `Spans.LengthSumIsJoinedLength` | linter.py:104-106 | The summed lengths the loop adds equal the length of the spanned lines' texts joined together. |
| `Spans.LengthSumSplit` | linter.py:104-106 | The summed lengths over a range of lines split at any line inside it into the two parts' sums. |
| `Spans.EndOffsetLandsOnEndLine` | linter.py:100-108 | For a span from `line` to the same or a later line, the computed end column, counted from the start of `line` in the joined texts, lands on the character that the end column names on the end line. |
| `Spans.EndColumnLandsOnEslintEnd` | linter.py:100-106 | With ESLint's own `endLine`/`endColumn` (or their defaults), the computed end column, counted from the start of `line` in the joined texts, lands on the character at 0-based `endColumn - 1` of 0-based line `endLine - 1`. |
| `Stderr.OnStderr` | linter.py:41-50 | A missing-configuration match gives a warning with a failure notice. Otherwise the deprecation marker gives a warning without a notice. Otherwise it is an error with a notice. An error always notifies failure. Failure goes unreported exactly when there is no missing-configuration match and the marker is present. |
| `Stderr.ReportAfterAnything` | linter.py:28-45 | `MissingConfigMatch` encodes `missing_config_regex.match`: a lazy any-text prefix (DOTALL), a newline (the optional `\r` falls into the prefix), word characters, the report text and any one character for the unescaped `.`. This lemma is one direction: any preamble, then a newline, word characters, the report and one more character, followed by anything, matches. That output is a warning that notifies failure. |
| `Stderr.MatchHasReportShape` | linter.py:28-31 | The converse: every string `MissingConfigMatch` accepts is some text, a newline, word characters only, the report text, one more character and anything after. With `ReportAfterAnything`, the predicate holds exactly for the strings the pattern matches. |
| `Stderr.MatchIgnoresLaterOutput` | linter.py:28-31 | `re.match` anchors only at the start, so output appended after a match keeps it a match. |
| `Stderr.NoNewlineNoMatch` | linter.py:28-31 | Output without a newline never matches, so the report at the very start of the output is not recognised. |
| `Stderr.DeprecationLine` | linter.py:43-47 | Any single line ending in `in the next version` is a warning without a failure notice. |

## Left out

- Diagnostics.FindErrors: requires every message that is not ignored to carry `line`. The code reads it with `match['line']` and raises `KeyError` without it. ESLint omits `line` only on its `File ignored` warnings, which the code skips first.
- Process invocation: the command tuple, feeding the buffer on standard input, and the host's `NodeLinter` lifecycle (linter.py:16-26). These are owned by the host.
- JSON decoding. `json.loads` is replaced by an already-decoded `Option<seq<Entry>>`. A `ValueError` is `None`. Records of other shapes (a non-list, a `null` where the code subtracts) would raise in Python and are not represented.
- Logging. `logger.warning`, `logger.error`, `logger.info` and `pprint` (linter.py:44-66) appear only as the `Level` of the triage. `notify_failure` is the `notifyFailure` flag.
- The host's view. `vv.select_line` is the `view` parameter, and its implementation is not part of this model.
- `crash_regex` (linter.py:32-35). No code in this file uses it.
- The statement after `return` at linter.py:97 never runs.
- The configuration values `line_col_base`, `defaults` and `npm_name` (linter.py:25, 36-39). They are only read by the host.
- Stderr.MissingConfigMatch: `\w` is taken as ASCII letters, digits and `_`. Python's `\w` on `str` also accepts other Unicode letters and digits, so a report whose newline is followed by such characters before `ESLint` matches in Python but not in the model.
- Records.Message: `fatal` is a boolean, so an absent key is `false`. The model does not cover a non-boolean `fatal` value, which Python would judge by truthiness.
