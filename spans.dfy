/**
 The highlighted region of one lint error (`ESLint.reposition_match`). The
 host's view is a function from a 0-based line number to that line's text,
 as `vv.select_line` returns it.
 */
module Spans {
  import opened Records

  /** A 0-based line and a start and end column counted from that line's start. */
  datatype Span = Span(line: int, startCol: int, endCol: int)

  /** The summed lengths of lines `lo` .. `hi - 1`; nothing when `hi <= lo`. */
  function LengthSum(view: int -> string, lo: int, hi: int): (n: nat)
    decreases hi - lo
  {
    if hi <= lo then 0 else LengthSum(view, lo, hi - 1) + |view(hi - 1)|
  }

  /** The texts of lines `lo` .. `hi - 1` laid end to end. */
  function Joined(view: int -> string, lo: int, hi: int): (text: string)
    decreases hi - lo
  {
    if hi <= lo then [] else view(lo) + Joined(view, lo + 1, hi)
  }

  /** `match.get('endLine', line + 1) - 1` for a start on 0-based `line`. */
  function EndLine(line: int, m: Message): (last: int) {
    (if m.endLine.Some? then m.endLine.value else line + 1) - 1
  }

  /** `match.get('endColumn', col + 2) - 1` for a start on 0-based `col`. */
  function EndColumn(col: int, m: Message): (end: int) {
    (if m.endColumn.Some? then m.endColumn.value else col + 2) - 1
  }

  lemma {:induction false} LengthSumSplit(view: int -> string, lo: int, mid: int, hi: int)
    requires lo <= mid <= hi
    ensures LengthSum(view, lo, hi) == LengthSum(view, lo, mid) + LengthSum(view, mid, hi)
    decreases hi - mid
  {
    if mid < hi {
      LengthSumSplit(view, lo, mid, hi - 1);
    }
  }

  /** The summed lengths are the length of the joined text. */
  lemma {:induction false} LengthSumIsJoinedLength(view: int -> string, lo: int, hi: int)
    ensures LengthSum(view, lo, hi) == |Joined(view, lo, hi)|
    decreases hi - lo
  {
    if lo < hi {
      LengthSumIsJoinedLength(view, lo + 1, hi);
      LengthSumSplit(view, lo, lo + 1, hi);
      assert LengthSum(view, lo, lo + 1) == |view(lo)|;
    }
  }

  lemma {:induction false} JoinedSnoc(view: int -> string, lo: int, hi: int)
    requires lo <= hi
    ensures Joined(view, lo, hi + 1) == Joined(view, lo, hi) + view(hi)
    decreases hi - lo
  {
    if lo < hi {
      JoinedSnoc(view, lo + 1, hi);
    }
  }

  /**
   Counted from the start of `line`, the end column of a span that ends on a
   later line `last` lands on the character that column `col` of `last` holds.
   */
  lemma EndOffsetLandsOnEndLine(view: int -> string, line: int, last: int, col: int)
    requires line <= last && 0 <= col < |view(last)|
    ensures col + LengthSum(view, line, last) < |Joined(view, line, last + 1)|
    ensures Joined(view, line, last + 1)[col + LengthSum(view, line, last)] == view(last)[col]
  {
    LengthSumIsJoinedLength(view, line, last);
    JoinedSnoc(view, line, last);
  }

  /**
   The same for the end ESLint gives: counted from the start of `line`, the
   end column `reposition_match` computes lands on the character at
   0-based `endColumn - 1` of 0-based line `endLine - 1`.
   */
  lemma EndColumnLandsOnEslintEnd(view: int -> string, line: int, c: int, m: Message)
    requires line <= EndLine(line, m) && 0 <= EndColumn(c, m) < |view(EndLine(line, m))|
    ensures EndColumn(c, m) + LengthSum(view, line, EndLine(line, m)) < |Joined(view, line, EndLine(line, m) + 1)|
    ensures Joined(view, line, EndLine(line, m) + 1)[EndColumn(c, m) + LengthSum(view, line, EndLine(line, m))]
      == view(EndLine(line, m))[EndColumn(c, m)]
  {
    EndOffsetLandsOnEndLine(view, line, EndLine(line, m), EndColumn(c, m));
  }

  /**
   `reposition_match`: `col` is the 0-based column `find_errors` produced and
   `m` the raw record it came from.
   */
  method RepositionMatch(line: int, col: Option<int>, m: Message, view: int -> string) returns (s: Span)
    ensures col.None? || m.fatal ==> s == Span(line, 0, |view(line)|)
    ensures col.Some? && !m.fatal ==> s.line == line && s.startCol == col.value
    ensures col.Some? && !m.fatal ==>
      s.endCol == EndColumn(col.value, m) + LengthSum(view, line, EndLine(line, m))
    ensures col.Some? && !m.fatal && EndLine(line, m) <= line ==> s.endCol == EndColumn(col.value, m)
    ensures col.Some? && !m.fatal && m.endLine.None? && m.endColumn.None? ==>
      s == Span(line, col.value, col.value + 1)
  {
    if col.None? || m.fatal {
      var text := view(line);
      return Span(line, 0, |text|);
    }
    var c := col.value;
    var endLine := EndLine(line, m);
    var endColumn := EndColumn(c, m);
    var l := line;
    while l < endLine
      invariant line <= l && (l <= endLine || l == line)
      invariant endColumn == EndColumn(c, m) + LengthSum(view, line, l)
    {
      var text := view(l);
      endColumn := endColumn + |text|;
      l := l + 1;
    }
    return Span(line, c, endColumn);
  }
}
