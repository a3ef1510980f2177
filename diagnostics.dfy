/**
 Translation of ESLint's decoded output into the host's lint errors
 (`ESLint.find_errors`).
 */
module Diagnostics {
  import opened Records

  /** Messages with this prefix report a file ESLint was told to skip. */
  const IgnoredPrefix := "File ignored"

  predicate IsIgnored(m: Message) {
    IgnoredPrefix <= m.message
  }

  /** Every message that is not skipped is read with `match['line']`. */
  predicate Readable(m: Message) {
    IsIgnored(m) || m.line.Some?
  }

  predicate AllReadable(ms: seq<Message>) {
    forall k :: 0 <= k < |ms| ==> Readable(ms[k])
  }

  /** `match.get('ruleId', '')`. */
  function RuleIdOf(m: Message): (id: Option<string>)
    ensures m.ruleId.Absent? ==> id == Some("")
    ensures id == None <==> m.ruleId.Null?
    ensures m.ruleId.Value? ==> id == Some(m.ruleId.value)
  {
    match m.ruleId
    case Absent => Some("")
    case Null => None
    case Value(id) => Some(id)
  }

  /** The tuple yielded for one message that is not skipped. */
  function ToLintError(m: Message): (e: LintError)
    requires m.line.Some?
    ensures e.record == m && e.text == m.message && e.near == None
    ensures e.line + 1 == m.line.value
    ensures e.col.Some? <==> m.column.Some?
    ensures e.col.Some? ==> e.col.value + 1 == m.column.value
    ensures m.severity == 2 ==> e.error == RuleIdOf(m) && e.warning == Some("")
    ensures m.severity == 1 ==> e.warning == RuleIdOf(m) && e.error == Some("")
    ensures m.severity != 1 && m.severity != 2 ==> e.error == Some("") && e.warning == Some("")
    ensures e.error == Some("") || e.warning == Some("")
  {
    var column := if m.column.Some? then Some(m.column.value - 1) else None;
    var ruleId := RuleIdOf(m);
    LintError(
      m,
      m.line.value - 1,
      column,
      if m.severity == 2 then ruleId else Some(""),
      if m.severity == 1 then ruleId else Some(""),
      m.message,
      None)
  }

  /** The messages of all entries, entry after entry. */
  function Flatten(content: seq<Entry>): (ms: seq<Message>) {
    if content == [] then []
    else Flatten(content[..|content| - 1]) + content[|content| - 1].messages
  }

  /** The tuples yielded for `ms`, skipping ignored-file messages. */
  function Translated(ms: seq<Message>): (r: seq<LintError>)
    requires AllReadable(ms)
    ensures |r| <= |ms|
    ensures forall e :: e in r ==> e.record in ms && !IsIgnored(e.record) && e == ToLintError(e.record)
  {
    if ms == [] then []
    else
      var last := ms[|ms| - 1];
      Translated(ms[..|ms| - 1]) + (if IsIgnored(last) then [] else [ToLintError(last)])
  }

  lemma PrefixReadable(ms: seq<Message>, n: int)
    requires AllReadable(ms) && 0 <= n <= |ms|
    ensures AllReadable(ms[..n])
  {
  }

  lemma AppendReadable(a: seq<Message>, b: seq<Message>)
    requires AllReadable(a + b)
    ensures AllReadable(a)
  {
    assert forall k :: 0 <= k < |a| ==> a[k] == (a + b)[k];
  }

  lemma {:induction false} FlattenAppend(a: seq<Entry>, b: seq<Entry>)
    ensures Flatten(a + b) == Flatten(a) + Flatten(b)
    decreases |b|
  {
    if b == [] {
      assert a + b == a;
    } else {
      var b' := b[..|b| - 1];
      assert (a + b)[..|a + b| - 1] == a + b';
      FlattenAppend(a, b');
    }
  }

  lemma {:induction false} TranslatedAppend(a: seq<Message>, b: seq<Message>)
    requires AllReadable(a) && AllReadable(b)
    ensures AllReadable(a + b)
    ensures Translated(a + b) == Translated(a) + Translated(b)
    decreases |b|
  {
    if b == [] {
      assert a + b == a;
    } else {
      var b' := b[..|b| - 1];
      assert (a + b)[..|a + b| - 1] == a + b';
      TranslatedAppend(a, b');
    }
  }

  /** A single message yields nothing when it is ignored and one tuple otherwise. */
  lemma TranslatedSingle(m: Message)
    requires Readable(m)
    ensures AllReadable([m])
    ensures Translated([m]) == if IsIgnored(m) then [] else [ToLintError(m)]
  {
  }

  /** Every message that is not ignored has its tuple among those yielded. */
  lemma {:induction false} TranslatedComplete(ms: seq<Message>, k: int)
    requires AllReadable(ms) && 0 <= k < |ms| && !IsIgnored(ms[k])
    ensures ToLintError(ms[k]) in Translated(ms)
  {
    var n := |ms| - 1;
    if k < n {
      var init := ms[..n];
      assert init[k] == ms[k];
      PrefixReadable(ms, n);
      TranslatedComplete(init, k);
    }
  }

  /**
   The tuples of several entries are those of each entry, in entry order.
   */
  lemma EntryOrder(c1: seq<Entry>, c2: seq<Entry>)
    requires AllReadable(Flatten(c1)) && AllReadable(Flatten(c2))
    ensures AllReadable(Flatten(c1 + c2))
    ensures Translated(Flatten(c1 + c2)) == Translated(Flatten(c1)) + Translated(Flatten(c2))
  {
    FlattenAppend(c1, c2);
    TranslatedAppend(Flatten(c1), Flatten(c2));
  }

  lemma TranslatedSnoc(xs: seq<Message>, m: Message)
    requires AllReadable(xs + [m])
    ensures AllReadable(xs) && Readable(m)
    ensures Translated(xs + [m]) == Translated(xs) + (if IsIgnored(m) then [] else [ToLintError(m)])
  {
    assert (xs + [m])[..|xs|] == xs;
    assert (xs + [m])[|xs|] == m;
    PrefixReadable(xs + [m], |xs|);
  }

  /** The messages seen after `j` messages of the entry following `done`. */
  lemma MessageStep(done: seq<Message>, messages: seq<Message>, j: int)
    requires AllReadable(done + messages) && 0 <= j < |messages|
    ensures done + messages[..j + 1] == (done + messages[..j]) + [messages[j]]
    ensures AllReadable(done + messages[..j + 1])
  {
    assert (done + messages)[..|done| + j + 1] == done + messages[..j + 1];
    PrefixReadable(done + messages, |done| + j + 1);
  }

  /** The messages of the first `i + 1` entries. */
  lemma FlattenStep(content: seq<Entry>, i: int)
    requires 0 <= i < |content|
    ensures Flatten(content[..i + 1]) == Flatten(content[..i]) + content[i].messages
  {
    var front := content[..i + 1];
    assert front[..|front| - 1] == content[..i];
  }

  /** The messages of the first `i + 1` entries are readable when all are. */
  lemma EntryStep(content: seq<Entry>, i: int)
    requires AllReadable(Flatten(content)) && 0 <= i < |content|
    ensures AllReadable(Flatten(content[..i]) + content[i].messages)
  {
    var front := content[..i + 1];
    var rest := content[i + 1..];
    assert front + rest == content;
    FlattenAppend(front, rest);
    FlattenStep(content, i);
    AppendReadable(Flatten(front), Flatten(rest));
  }

  /**
   `find_errors`: `None` stands for output that `json.loads` rejects, which
   yields nothing.
   */
  method FindErrors(output: Option<seq<Entry>>) returns (errors: seq<LintError>)
    requires output.Some? ==> AllReadable(Flatten(output.value))
    ensures output.None? ==> errors == []
    ensures output.Some? ==> errors == Translated(Flatten(output.value))
  {
    errors := [];
    if output.None? {
      return;
    }
    var content := output.value;
    var i := 0;
    while i < |content|
      invariant 0 <= i <= |content|
      invariant AllReadable(Flatten(content[..i]))
      invariant errors == Translated(Flatten(content[..i]))
    {
      var messages := content[i].messages;
      FlattenStep(content, i);
      EntryStep(content, i);
      ghost var done := Flatten(content[..i]);
      var j := 0;
      assert done + messages[..0] == done;
      while j < |messages|
        invariant 0 <= j <= |messages|
        invariant AllReadable(done + messages[..j])
        invariant errors == Translated(done + messages[..j])
      {
        var m := messages[j];
        MessageStep(done, messages, j);
        TranslatedSnoc(done + messages[..j], m);
        if !IsIgnored(m) {
          errors := errors + [ToLintError(m)];
        }
        j := j + 1;
      }
      assert messages[..j] == messages;
      i := i + 1;
    }
    assert content[..i] == content;
  }
}
