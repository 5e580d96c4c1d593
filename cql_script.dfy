/**
  The statement splitter of the schema loader: a CQL script, given as the
  lines a line reader produces, is turned into the statements that are sent
  to the store.

  `Split` is the reference definition (the kept lines, grouped up to each
  line that ends in ';' and joined with single spaces); `Scan` is the
  line-by-line reading with a statement buffer that the loader performs.
  `ScanIsSplit` proves the two agree.
 */
module CqlScript {

  /* ---------------------------------------------------------------------
     Java's String.trim: removes every character whose code is at most
     U+0020 from both ends.
     --------------------------------------------------------------------- */

  predicate IsBlank(c: char) {
    c <= ' '
  }

  /** A string with no blank at either end. */
  predicate IsTrimmed(s: string) {
    s == [] || (!IsBlank(s[0]) && !IsBlank(s[|s| - 1]))
  }

  /** The number of blanks at the start of `s`. */
  function LeadingBlanks(s: string): (k: nat)
    ensures k <= |s|
  {
    if |s| > 0 && IsBlank(s[0]) then 1 + LeadingBlanks(s[1..]) else 0
  }

  /** The number of blanks at the end of `s`. */
  function TrailingBlanks(s: string): (k: nat)
    ensures k <= |s|
  {
    if |s| > 0 && IsBlank(s[|s| - 1]) then 1 + TrailingBlanks(s[..|s| - 1]) else 0
  }

  /** `LeadingBlanks` counts exactly the blanks before the first non-blank. */
  lemma {:induction false} LeadingBlanksSpec(s: string)
    ensures forall j :: 0 <= j < LeadingBlanks(s) ==> IsBlank(s[j])
    ensures LeadingBlanks(s) < |s| ==> !IsBlank(s[LeadingBlanks(s)])
  {
    if |s| > 0 && IsBlank(s[0]) {
      LeadingBlanksSpec(s[1..]);
    }
  }

  /** `TrailingBlanks` counts exactly the blanks after the last non-blank. */
  lemma {:induction false} TrailingBlanksSpec(s: string)
    ensures forall j :: |s| - TrailingBlanks(s) <= j < |s| ==> IsBlank(s[j])
    ensures TrailingBlanks(s) < |s| ==> !IsBlank(s[|s| - 1 - TrailingBlanks(s)])
  {
    if |s| > 0 && IsBlank(s[|s| - 1]) {
      TrailingBlanksSpec(s[..|s| - 1]);
    }
  }

  /** `s` without its leading and trailing blanks. */
  function Trim(s: string): (r: string)
    ensures |r| <= |s|
  {
    var t := s[LeadingBlanks(s)..];
    t[..|t| - TrailingBlanks(t)]
  }

  /** Trim removes blanks only, and only at the ends, and leaves none there. */
  lemma TrimSpec(s: string)
    ensures IsTrimmed(Trim(s))
    ensures LeadingBlanks(s) + |Trim(s)| <= |s|
    ensures Trim(s) == s[LeadingBlanks(s)..LeadingBlanks(s) + |Trim(s)|]
    ensures forall j :: 0 <= j < |s| && !(LeadingBlanks(s) <= j < LeadingBlanks(s) + |Trim(s)|) ==> IsBlank(s[j])
  {
    var l := LeadingBlanks(s);
    var t := s[l..];
    var n := |t| - TrailingBlanks(t);
    assert Trim(s) == t[..n];
    LeadingBlanksSpec(s);
    TrailingBlanksSpec(t);
    forall j | l + n <= j < |s|
      ensures IsBlank(s[j])
    {
      assert s[j] == t[j - l];
    }
    BlankOutside(s, l, n);
  }

  /** Blanks before `l` and from `l + n` on are the blanks outside `[l, l + n)`. */
  lemma BlankOutside(s: string, l: nat, n: nat)
    requires l + n <= |s|
    requires forall j :: 0 <= j < l ==> IsBlank(s[j])
    requires forall j :: l + n <= j < |s| ==> IsBlank(s[j])
    ensures forall j :: 0 <= j < |s| && !(l <= j < l + n) ==> IsBlank(s[j])
  {
  }

  /** Trimming a string that has no blank at either end changes nothing. */
  lemma TrimTrimmed(s: string)
    requires IsTrimmed(s)
    ensures Trim(s) == s
  {
    assert LeadingBlanks(s) == 0;
    assert TrailingBlanks(s) == 0;
  }

  /* ---------------------------------------------------------------------
     Classifying a trimmed line.
     --------------------------------------------------------------------- */

  predicate IsComment(line: string) {
    |line| >= 2 && line[0] == '-' && line[1] == '-'
  }

  /** A trimmed line that the loader drops: empty, or a `--` comment. */
  predicate IsSkipped(line: string) {
    line == [] || IsComment(line)
  }

  predicate EndsWithSemicolon(line: string) {
    |line| > 0 && line[|line| - 1] == ';'
  }

  /** A line as it reaches the statement buffer: trimmed and not skipped. */
  predicate IsKeptLine(line: string) {
    IsTrimmed(line) && !IsSkipped(line)
  }

  /** The trimmed lines of a script that reach the buffer, in order. */
  function Kept(lines: seq<string>): (kept: seq<string>)
    ensures |kept| <= |lines|
  {
    if lines == [] then []
    else
      var line := Trim(lines[0]);
      (if IsSkipped(line) then [] else [line]) + Kept(lines[1..])
  }

  /** Every line that reaches the buffer is trimmed, non-empty and not a
      comment, and no line is added. */
  lemma {:induction false} KeptLines(lines: seq<string>)
    ensures |Kept(lines)| <= |lines|
    ensures forall i :: 0 <= i < |Kept(lines)| ==> IsKeptLine(Kept(lines)[i])
  {
    if lines != [] {
      TrimSpec(lines[0]);
      KeptLines(lines[1..]);
    }
  }

  lemma {:induction false} KeptConcat(a: seq<string>, b: seq<string>)
    ensures Kept(a + b) == Kept(a) + Kept(b)
  {
    if a == [] {
      assert a + b == b;
    } else {
      assert (a + b)[1..] == a[1..] + b;
      KeptConcat(a[1..], b);
    }
  }

  /* ---------------------------------------------------------------------
     Joining lines into a statement.
     --------------------------------------------------------------------- */

  /** `parts` joined with exactly one space between neighbours. */
  function Join(parts: seq<string>): string
    requires parts != []
  {
    if |parts| == 1 then parts[0] else parts[0] + " " + Join(parts[1..])
  }

  /** A joined statement begins with its first part and ends with its last. */
  lemma {:induction false} JoinEnds(parts: seq<string>)
    requires parts != []
    ensures |parts[0]| <= |Join(parts)| && Join(parts)[..|parts[0]|] == parts[0]
    ensures |parts[|parts| - 1]| <= |Join(parts)|
    ensures Join(parts)[|Join(parts)| - |parts[|parts| - 1]|..] == parts[|parts| - 1]
  {
    if |parts| > 1 {
      JoinEnds(parts[1..]);
    }
  }

  /** The buffer after each of `parts` was appended followed by one space. */
  function Pending(parts: seq<string>): string {
    if parts == [] then "" else parts[0] + " " + Pending(parts[1..])
  }

  lemma {:induction false} PendingSnoc(parts: seq<string>, line: string)
    ensures Pending(parts + [line]) == Pending(parts) + line + " "
  {
    if parts == [] {
      assert [] + [line] == [line];
    } else {
      assert (parts + [line])[1..] == parts[1..] + [line];
      PendingSnoc(parts[1..], line);
    }
  }

  /** Appending the terminating line to the buffer gives the joined statement. */
  lemma {:induction false} PendingThenLast(parts: seq<string>, last: string)
    ensures Pending(parts) + last == Join(parts + [last])
  {
    if parts == [] {
      assert [] + [last] == [last];
    } else {
      assert (parts + [last])[1..] == parts[1..] + [last];
      PendingThenLast(parts[1..], last);
    }
  }

  /* ---------------------------------------------------------------------
     The reference definition.
     --------------------------------------------------------------------- */

  /** The index of the first line ending in ';', or |kept| when there is none. */
  function FirstTerminator(kept: seq<string>): (k: nat)
    ensures k <= |kept|
    ensures forall j :: 0 <= j < k ==> !EndsWithSemicolon(kept[j])
    ensures k < |kept| ==> EndsWithSemicolon(kept[k])
  {
    if kept == [] then 0
    else if EndsWithSemicolon(kept[0]) then 0
    else 1 + FirstTerminator(kept[1..])
  }

  /** The statements that the kept lines form: each run of lines up to and
      including one that ends in ';' becomes one statement; an unterminated
      tail forms none. */
  function Statements(kept: seq<string>): (statements: seq<string>)
    ensures |statements| <= |kept|
    decreases |kept|
  {
    var k := FirstTerminator(kept);
    if k == |kept| then [] else [Join(kept[..k + 1])] + Statements(kept[k + 1..])
  }

  /** The statements of a script, given as its lines. */
  function Split(lines: seq<string>): (statements: seq<string>)
    ensures |statements| <= |lines|
  {
    Statements(Kept(lines))
  }

  /** The number of lines of `kept` that end in ';'. */
  function Terminated(kept: seq<string>): nat {
    if kept == [] then 0
    else (if EndsWithSemicolon(kept[0]) then 1 else 0) + Terminated(kept[1..])
  }

  /* ---------------------------------------------------------------------
     The loader's reading loop, as a function of the remaining lines and
     the buffer contents.
     --------------------------------------------------------------------- */

  /** The statements executed when `lines` are read with `query` already
      in the buffer. */
  function Scan(lines: seq<string>, query: string): (statements: seq<string>)
    ensures |statements| <= |lines|
  {
    if lines == [] then []
    else
      var line := Trim(lines[0]);
      if IsSkipped(line) then Scan(lines[1..], query)
      else if EndsWithSemicolon(line) then [Trim(query + line)] + Scan(lines[1..], "")
      else Scan(lines[1..], query + line + " ")
  }

  /** `Scan` from the `i`-th line, one step. */
  lemma ScanAt(lines: seq<string>, i: nat, query: string)
    requires i < |lines|
    ensures Scan(lines[i..], query) ==
      var line := Trim(lines[i]);
      if IsSkipped(line) then Scan(lines[i + 1..], query)
      else if EndsWithSemicolon(line) then [Trim(query + line)] + Scan(lines[i + 1..], "")
      else Scan(lines[i + 1..], query + line + " ")
  {
    assert lines[i..][1..] == lines[i + 1..];
  }

  /** The trim applied to a completed buffer never changes it: the buffer
      starts with a kept line and ends with ';'. */
  lemma ExecutedTrimIsIdentity(parts: seq<string>, last: string)
    requires forall i :: 0 <= i < |parts| ==> IsKeptLine(parts[i])
    requires IsKeptLine(last) && EndsWithSemicolon(last)
    ensures Trim(Pending(parts) + last) == Join(parts + [last])
  {
    PendingThenLast(parts, last);
    var s := Join(parts + [last]);
    JoinEnds(parts + [last]);
    assert (parts + [last])[0] != [] && s[..|(parts + [last])[0]|] == (parts + [last])[0];
    assert s[0] == (parts + [last])[0][0];
    assert s[|s| - |last|..] == last;
    assert s[|s| - 1] == last[|last| - 1];
    TrimTrimmed(s);
  }

  lemma FirstTerminatorIs(kept: seq<string>, k: nat)
    requires k <= |kept|
    requires forall j :: 0 <= j < k ==> !EndsWithSemicolon(kept[j])
    requires k < |kept| ==> EndsWithSemicolon(kept[k])
    ensures FirstTerminator(kept) == k
  {
  }

  /** The statements of kept lines whose first terminated line is `line`,
      preceded by the unterminated lines `pending`. */
  lemma StatementsFirst(pending: seq<string>, line: string, rest: seq<string>)
    requires forall i :: 0 <= i < |pending| ==> !EndsWithSemicolon(pending[i])
    requires EndsWithSemicolon(line)
    ensures Statements(pending + [line] + rest) == [Join(pending + [line])] + Statements(rest)
  {
    var all := pending + [line] + rest;
    FirstTerminatorIs(all, |pending|);
    assert all[..|pending| + 1] == pending + [line];
    assert all[|pending| + 1..] == rest;
  }

  lemma StatementsUnterminated(pending: seq<string>)
    requires forall i :: 0 <= i < |pending| ==> !EndsWithSemicolon(pending[i])
    ensures Statements(pending) == []
  {
    FirstTerminatorIs(pending, |pending|);
  }

  predicate IsOpenGroup(pending: seq<string>) {
    forall i :: 0 <= i < |pending| ==> IsKeptLine(pending[i]) && !EndsWithSemicolon(pending[i])
  }

  /** One step of `Scan` on a line that the loader drops. */
  lemma ScanSkipStep(lines: seq<string>, pending: seq<string>)
    requires lines != [] && IsSkipped(Trim(lines[0]))
    requires Scan(lines[1..], Pending(pending)) == Statements(pending + Kept(lines[1..]))
    ensures Scan(lines, Pending(pending)) == Statements(pending + Kept(lines))
  {
    assert Scan(lines, Pending(pending)) == Scan(lines[1..], Pending(pending));
    assert Kept(lines) == Kept(lines[1..]);
  }

  /** One step of `Scan` on a line that completes a statement. */
  lemma ScanTerminatedStep(lines: seq<string>, pending: seq<string>)
    requires IsOpenGroup(pending)
    requires lines != [] && !IsSkipped(Trim(lines[0])) && EndsWithSemicolon(Trim(lines[0]))
    requires Scan(lines[1..], "") == Statements(Kept(lines[1..]))
    ensures Scan(lines, Pending(pending)) == Statements(pending + Kept(lines))
  {
    var line := Trim(lines[0]);
    var rest := Kept(lines[1..]);
    calc {
      Scan(lines, Pending(pending));
      [Trim(Pending(pending) + line)] + Scan(lines[1..], "");
      { TrimSpec(lines[0]); ExecutedTrimIsIdentity(pending, line); }
      [Join(pending + [line])] + Statements(rest);
      { StatementsFirst(pending, line, rest); }
      Statements(pending + [line] + rest);
      { assert Kept(lines) == [line] + rest; ConcatAssoc(pending, [line], rest); }
      Statements(pending + Kept(lines));
    }
  }

  /** One step of `Scan` on a kept line that does not end in ';'. */
  lemma ScanOpenStep(lines: seq<string>, pending: seq<string>)
    requires lines != [] && !IsSkipped(Trim(lines[0])) && !EndsWithSemicolon(Trim(lines[0]))
    requires Scan(lines[1..], Pending(pending + [Trim(lines[0])]))
          == Statements(pending + [Trim(lines[0])] + Kept(lines[1..]))
    ensures Scan(lines, Pending(pending)) == Statements(pending + Kept(lines))
  {
    var line := Trim(lines[0]);
    assert Scan(lines, Pending(pending)) == Scan(lines[1..], Pending(pending) + line + " ");
    assert Kept(lines) == [line] + Kept(lines[1..]);
    PendingSnoc(pending, line);
    assert (pending + [line]) + Kept(lines[1..]) == pending + Kept(lines);
  }

  /** Reading `lines` with the unterminated kept lines `pending` already in
      the buffer executes the statements those lines and the kept lines of
      `lines` form. */
  lemma {:induction false} ScanPending(lines: seq<string>, pending: seq<string>)
    requires IsOpenGroup(pending)
    ensures Scan(lines, Pending(pending)) == Statements(pending + Kept(lines))
  {
    if lines == [] {
      assert pending + Kept(lines) == pending;
      StatementsUnterminated(pending);
    } else {
      var line := Trim(lines[0]);
      if IsSkipped(line) {
        ScanPending(lines[1..], pending);
        ScanSkipStep(lines, pending);
      } else if EndsWithSemicolon(line) {
        ScanPending(lines[1..], []);
        assert [] + Kept(lines[1..]) == Kept(lines[1..]);
        ScanTerminatedStep(lines, pending);
      } else {
        TrimSpec(lines[0]);
        ScanPending(lines[1..], pending + [line]);
        ScanOpenStep(lines, pending);
      }
    }
  }

  /** The loader's line-by-line reading executes exactly the statements of
      the reference definition. */
  lemma ScanIsSplit(lines: seq<string>)
    ensures Scan(lines, "") == Split(lines)
  {
    ScanPending(lines, []);
    assert [] + Kept(lines) == Kept(lines);
  }

  /* ---------------------------------------------------------------------
     Properties of the statements.
     --------------------------------------------------------------------- */

  /** A blank or comment line, wherever it stands, changes no statement. */
  lemma SkippedLineIgnored(before: seq<string>, line: string, after: seq<string>)
    requires IsSkipped(Trim(line))
    ensures Split(before + [line] + after) == Split(before + after)
  {
    KeptConcat(before + [line], after);
    KeptConcat(before, [line]);
    KeptConcat(before, after);
    assert Kept([line]) == [] + Kept([]);
    assert Kept(before) + [] == Kept(before);
  }

  lemma {:induction false} TerminatedConcat(a: seq<string>, b: seq<string>)
    ensures Terminated(a + b) == Terminated(a) + Terminated(b)
  {
    if a == [] {
      assert a + b == b;
    } else {
      assert (a + b)[1..] == a[1..] + b;
      TerminatedConcat(a[1..], b);
    }
  }

  lemma {:induction false} TerminatedNone(kept: seq<string>)
    requires forall j :: 0 <= j < |kept| ==> !EndsWithSemicolon(kept[j])
    ensures Terminated(kept) == 0
  {
    if kept != [] {
      TerminatedNone(kept[1..]);
    }
  }

  lemma {:induction false} StatementsCount(kept: seq<string>)
    ensures |Statements(kept)| == Terminated(kept)
    decreases |kept|
  {
    var k := FirstTerminator(kept);
    if k == |kept| {
      TerminatedNone(kept);
    } else {
      assert kept == kept[..k] + [kept[k]] + kept[k + 1..];
      TerminatedConcat(kept[..k] + [kept[k]], kept[k + 1..]);
      TerminatedConcat(kept[..k], [kept[k]]);
      TerminatedNone(kept[..k]);
      assert Terminated([kept[k]]) == 1 + Terminated([]);
      StatementsCount(kept[k + 1..]);
    }
  }

  /** One statement is executed per kept line that ends in ';'. */
  lemma StatementCount(lines: seq<string>)
    ensures |Split(lines)| == Terminated(Kept(lines))
  {
    StatementsCount(Kept(lines));
  }

  /** Only a ';' at the very end of a trimmed line ends a statement: any
      other line, whatever it contains, leaves the number of statements as it
      is. */
  lemma UnterminatedLineDoesNotSplit(before: seq<string>, line: string, after: seq<string>)
    requires !EndsWithSemicolon(Trim(line))
    ensures |Split(before + [line] + after)| == |Split(before + after)|
  {
    StatementCount(before + [line] + after);
    StatementCount(before + after);
    KeptConcat(before + [line], after);
    KeptConcat(before, [line]);
    KeptConcat(before, after);
    assert Kept([line]) == (if IsSkipped(Trim(line)) then [] else [Trim(line)]) + Kept([]);
    TerminatedConcat(Kept(before) + Kept([line]), Kept(after));
    TerminatedConcat(Kept(before), Kept([line]));
    TerminatedConcat(Kept(before), Kept(after));
    TerminatedNone(Kept([line]));
  }

  lemma {:induction false} StatementsShape(kept: seq<string>)
    requires forall i :: 0 <= i < |kept| ==> IsKeptLine(kept[i])
    ensures forall i :: 0 <= i < |Statements(kept)| ==>
      var s := Statements(kept)[i]; s != [] && IsTrimmed(s) && EndsWithSemicolon(s)
    decreases |kept|
  {
    var k := FirstTerminator(kept);
    if k < |kept| {
      var group := kept[..k + 1];
      var s := Join(group);
      JoinEnds(group);
      assert group[0] == kept[0] && group[|group| - 1] == kept[k];
      assert s[..|kept[0]|] == kept[0];
      assert s[0] == kept[0][0];
      assert s[|s| - |kept[k]|..] == kept[k];
      assert s[|s| - 1] == kept[k][|kept[k]| - 1];
      StatementsShape(kept[k + 1..]);
    }
  }

  /** Every executed statement is non-empty, ends with ';' and has no blank
      at either end. */
  lemma StatementShape(lines: seq<string>)
    ensures forall i :: 0 <= i < |Split(lines)| ==>
      var s := Split(lines)[i]; s != [] && IsTrimmed(s) && EndsWithSemicolon(s)
  {
    KeptLines(lines);
    StatementsShape(Kept(lines));
  }

  lemma ConcatAssoc<T>(x: seq<T>, y: seq<T>, z: seq<T>)
    ensures x + (y + z) == (x + y) + z
  {
  }

  lemma SliceConcat<T>(a: seq<T>, b: seq<T>, k: nat)
    requires k <= |a|
    ensures (a + b)[..k] == a[..k]
    ensures (a + b)[k..] == a[k..] + b
  {
  }

  /** Unfolds `Statements` on `a + b` when `a` holds a terminated line. */
  lemma StatementsHead(a: seq<string>, b: seq<string>, k: nat)
    requires k == FirstTerminator(a) && k < |a|
    ensures Statements(a) == [Join(a[..k + 1])] + Statements(a[k + 1..])
    ensures Statements(a + b) == [Join(a[..k + 1])] + Statements(a[k + 1..] + b)
  {
    FirstTerminatorIs(a + b, k);
    SliceConcat(a, b, k + 1);
  }

  lemma {:induction false} StatementsAfterTerminator(a: seq<string>, b: seq<string>)
    requires a == [] || EndsWithSemicolon(a[|a| - 1])
    ensures Statements(a + b) == Statements(a) + Statements(b)
    decreases |a|
  {
    if a == [] {
      assert a + b == b;
    } else {
      var k := FirstTerminator(a);
      assert EndsWithSemicolon(a[|a| - 1]);
      assert k < |a|;
      var tail := a[k + 1..];
      assert tail == [] || tail[|tail| - 1] == a[|a| - 1];
      StatementsHead(a, b, k);
      StatementsAfterTerminator(tail, b);
      ConcatAssoc([Join(a[..k + 1])], Statements(tail), Statements(b));
    }
  }

  /** Once a statement is complete the buffer is empty: what follows a
      terminated line is split on its own, and no fragment of the earlier
      part leaks into a later statement. */
  lemma SplitAfterTerminator(before: seq<string>, after: seq<string>)
    requires Kept(before) == [] || EndsWithSemicolon(Kept(before)[|Kept(before)| - 1])
    ensures Split(before + after) == Split(before) + Split(after)
  {
    KeptConcat(before, after);
    StatementsAfterTerminator(Kept(before), Kept(after));
  }

  lemma {:induction false} StatementsUnterminatedTail(a: seq<string>, b: seq<string>)
    requires forall j :: 0 <= j < |b| ==> !EndsWithSemicolon(b[j])
    ensures Statements(a + b) == Statements(a)
    decreases |a|
  {
    var k := FirstTerminator(a);
    if k == |a| {
      assert forall j :: 0 <= j < |a + b| ==> !EndsWithSemicolon((a + b)[j]) by {
        forall j | 0 <= j < |a + b|
          ensures !EndsWithSemicolon((a + b)[j])
        {
          if j >= |a| { assert (a + b)[j] == b[j - |a|]; }
        }
      }
      StatementsUnterminated(a + b);
      StatementsUnterminated(a);
    } else {
      StatementsHead(a, b, k);
      StatementsUnterminatedTail(a[k + 1..], b);
    }
  }

  /** Lines at the end of a script that contain no terminated line are
      never executed: the unterminated buffer is dropped at end of input. */
  lemma UnterminatedTailDropped(before: seq<string>, tail: seq<string>)
    requires forall j :: 0 <= j < |Kept(tail)| ==> !EndsWithSemicolon(Kept(tail)[j])
    ensures Split(before + tail) == Split(before)
  {
    KeptConcat(before, tail);
    StatementsUnterminatedTail(Kept(before), Kept(tail));
  }

  /* ---------------------------------------------------------------------
     Worked examples.
     --------------------------------------------------------------------- */

  /** `Kept` on a script, one line at a time. */
  lemma KeptCons(line: string, rest: seq<string>)
    ensures Kept([line] + rest) == (if IsSkipped(Trim(line)) then [] else [Trim(line)]) + Kept(rest)
  {
    assert ([line] + rest)[1..] == rest;
  }

  /** Two kept lines of which only the second ends in ';' form one
      statement: the two joined with one space. */
  lemma StatementsOfPair(first: string, second: string)
    requires !EndsWithSemicolon(first) && EndsWithSemicolon(second)
    ensures Statements([first, second]) == [first + " " + second]
  {
    var pair := [first, second];
    FirstTerminatorIs(pair, 1);
    assert pair[..2] == pair && pair[2..] == [];
    assert Join(pair) == first + " " + Join(pair[1..]);
    FirstTerminatorIs([], 0);
  }

  /** A comment, a blank line, a one-line statement and a statement over two
      lines give the one-line statement and the two lines joined. */
  lemma SplitTwoStatements(comment: string, blank: string, one: string, first: string, second: string)
    requires IsSkipped(Trim(comment)) && IsSkipped(Trim(blank))
    requires IsKeptLine(one) && EndsWithSemicolon(one)
    requires IsKeptLine(first) && !EndsWithSemicolon(first)
    requires IsKeptLine(second) && EndsWithSemicolon(second)
    ensures Split([comment, blank, one, first, second]) == [one, first + " " + second]
  {
    var kept := [one, first, second];
    assert Kept([comment, blank, one, first, second]) == kept by {
      TrimTrimmed(one);
      TrimTrimmed(first);
      TrimTrimmed(second);
      KeptCons(second, []);
      KeptCons(first, [second]);
      KeptCons(one, [first, second]);
      KeptCons(blank, [one, first, second]);
      KeptCons(comment, [blank, one, first, second]);
    }
    assert Statements(kept) == [one] + Statements(kept[1..]) by {
      FirstTerminatorIs(kept, 0);
      assert kept[..1] == [one];
    }
    assert kept[1..] == [first, second];
    StatementsOfPair(first, second);
  }

  /** The comment, blank line and pair of table definitions of a typical
      schema script. */
  lemma SplitExample(lines: seq<string>)
    requires lines == ["-- comment", "", "CREATE TABLE x (a int);", "CREATE TABLE", "y (b int);"]
    ensures Split(lines) == ["CREATE TABLE x (a int);", "CREATE TABLE y (b int);"]
  {
    TrimTrimmed("-- comment");
    SplitTwoStatements("-- comment", "", "CREATE TABLE x (a int);", "CREATE TABLE", "y (b int);");
    assert "CREATE TABLE" + " " + "y (b int);" == "CREATE TABLE y (b int);";
  }

  /** A ';' inside a line does not end the statement. */
  lemma InnerSemicolonExample(lines: seq<string>)
    requires lines == ["SELECT 'a;b'", "FROM t;"]
    ensures Split(lines) == ["SELECT 'a;b' FROM t;"]
  {
    assert Kept(lines) == lines by {
      TrimTrimmed("SELECT 'a;b'");
      TrimTrimmed("FROM t;");
      KeptCons("FROM t;", []);
      KeptCons("SELECT 'a;b'", ["FROM t;"]);
    }
    StatementsOfPair("SELECT 'a;b'", "FROM t;");
    assert "SELECT 'a;b'" + " " + "FROM t;" == "SELECT 'a;b' FROM t;";
  }
}
