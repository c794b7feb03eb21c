/** Log lines coalesced into counted entries and flushed in batches
    (NostrRelayApp/NostrRelayApp/Services/RelayService.swift). */
module LogBuffer {
  import opened Text

  datatype LogType = Info | Warning | Error

  datatype Line = Line(message: string, kind: LogType)

  /** One row of the log: a line and how often it repeated. */
  datatype Entry = Entry(line: Line, count: nat)

  const MAX_LOG_LINES: nat := 500

  datatype Buffers = Buffers(logs: seq<Entry>, pending: seq<Entry>)

  /** The normal form under which Swift compares strings: equal strings are those with the same one. */
  type Canon = string -> string

  function Canonical(canon: Canon, line: Line): Line {
    line.(message := canon(line.message))
  }

  predicate Same(canon: Canon, a: Line, b: Line) {
    Canonical(canon, a) == Canonical(canon, b)
  }

  // ----- the two operations on values -----

  /** A repeated line is counted on the entry before it, which keeps its own spelling. */
  function AppendLine(canon: Canon, pending: seq<Entry>, line: Line): seq<Entry> {
    var n := |pending|;
    if n > 0 && Same(canon, pending[n - 1].line, line)
    then pending[..n - 1] + [Entry(pending[n - 1].line, pending[n - 1].count + 1)]
    else pending + [Entry(line, 1)]
  }

  /** The two lists put together, merging equal lines across the boundary. */
  function Merged(canon: Canon, logs: seq<Entry>, pending: seq<Entry>): seq<Entry>
    requires pending != []
  {
    var n := |logs|;
    if n > 0 && Same(canon, logs[n - 1].line, pending[0].line)
    then logs[..n - 1] + [Entry(logs[n - 1].line, logs[n - 1].count + pending[0].count)] + pending[1..]
    else logs + pending
  }

  function Trimmed(logs: seq<Entry>): seq<Entry> {
    if |logs| > MAX_LOG_LINES then logs[|logs| - MAX_LOG_LINES..] else logs
  }

  function Flushed(canon: Canon, b: Buffers): Buffers {
    if b.pending == [] then b else Buffers(Trimmed(Merged(canon, b.logs, b.pending)), [])
  }

  class RelayLog {
    const canon: Canon
    var logs: seq<Entry>
    var pendingLogs: seq<Entry>
    var warningCount: nat
    var errorCount: nat
    var lastError: Option<string>

    constructor (canon: Canon)
      ensures this.canon == canon
      ensures logs == [] && pendingLogs == [] && warningCount == 0 && errorCount == 0 && lastError == None
    {
      this.canon := canon;
      logs, pendingLogs, warningCount, errorCount, lastError := [], [], 0, 0, None;
    }

    method AppendLog(message: string, kind: LogType)
      modifies this
      ensures logs == old(logs) && pendingLogs == AppendLine(canon, old(pendingLogs), Line(message, kind))
      ensures warningCount == old(warningCount) + if kind == Warning then 1 else 0
      ensures errorCount == old(errorCount) + if kind == Error then 1 else 0
      ensures lastError == if kind == Error then Some(message) else old(lastError)
    {
      match kind {
        case Warning => warningCount := warningCount + 1;
        case Error =>
          errorCount := errorCount + 1;
          lastError := Some(message);
        case Info =>
      }
      var lastIndex := |pendingLogs| - 1;
      if lastIndex >= 0 && canon(pendingLogs[lastIndex].line.message) == canon(message) &&
         pendingLogs[lastIndex].line.kind == kind
      {
        pendingLogs := pendingLogs[lastIndex := pendingLogs[lastIndex].(count := pendingLogs[lastIndex].count + 1)];
      } else {
        pendingLogs := pendingLogs + [Entry(Line(message, kind), 1)];
      }
    }

    method FlushLogs()
      modifies this
      ensures Buffers(logs, pendingLogs) == Flushed(canon, Buffers(old(logs), old(pendingLogs)))
      ensures warningCount == old(warningCount) && errorCount == old(errorCount) && lastError == old(lastError)
    {
      if pendingLogs == [] {
        return;
      }
      var lastIndex := |logs| - 1;
      ghost var merged := Merged(canon, logs, pendingLogs);
      if lastIndex >= 0 && Same(canon, logs[lastIndex].line, pendingLogs[0].line) {
        assert logs == logs[..lastIndex] + [logs[lastIndex]];
        logs := logs[lastIndex := logs[lastIndex].(count := logs[lastIndex].count + pendingLogs[0].count)];
        pendingLogs := pendingLogs[1..];
      }
      logs := logs + pendingLogs;
      assert logs == merged;
      pendingLogs := [];
      if |logs| > MAX_LOG_LINES {
        logs := logs[|logs| - MAX_LOG_LINES..];
      }
    }
  }

  // ----- meaning -----

  function Repeated(line: Line, n: nat): seq<Line> {
    seq(n, _ => line)
  }

  /** Each entry written out, in its normal form, as often as it counts. */
  function Expand(canon: Canon, entries: seq<Entry>): seq<Line> {
    if entries == [] then []
    else
      var last := entries[|entries| - 1];
      Expand(canon, entries[..|entries| - 1]) + Repeated(Canonical(canon, last.line), last.count)
  }

  predicate IsSuffix(s: seq<Line>, all: seq<Line>) {
    |s| <= |all| && all[|all| - |s|..] == s
  }

  predicate NoEqualNeighbours(canon: Canon, entries: seq<Entry>) {
    forall i :: 0 < i < |entries| ==> !Same(canon, entries[i - 1].line, entries[i].line)
  }

  predicate Counted(entries: seq<Entry>) {
    forall i :: 0 <= i < |entries| ==> entries[i].count > 0
  }

  lemma {:induction false} ExpandAppend(canon: Canon, a: seq<Entry>, b: seq<Entry>)
    ensures Expand(canon, a + b) == Expand(canon, a) + Expand(canon, b)
  {
    if b == [] {
      assert a + b == a;
    } else {
      assert (a + b)[..|a + b| - 1] == a + b[..|b| - 1];
      ExpandAppend(canon, a, b[..|b| - 1]);
    }
  }

  lemma RepeatedSum(line: Line, m: nat, n: nat)
    ensures Repeated(line, m) + Repeated(line, n) == Repeated(line, m + n)
  {
  }

  lemma ExpandOne(canon: Canon, e: Entry)
    ensures Expand(canon, [e]) == Repeated(Canonical(canon, e.line), e.count)
  {
    assert [e][..0] == [];
  }

  /** Appending coalesces without losing or reordering a line. */
  lemma AppendExpands(canon: Canon, pending: seq<Entry>, line: Line)
    ensures Expand(canon, AppendLine(canon, pending, line)) == Expand(canon, pending) + [Canonical(canon, line)]
  {
    var n := |pending|;
    if n > 0 && Same(canon, pending[n - 1].line, line) {
      CountedOnceMore(canon, pending[..n - 1], pending[n - 1]);
      assert pending == pending[..n - 1] + [pending[n - 1]];
    } else {
      ExpandOne(canon, Entry(line, 1));
      ExpandAppend(canon, pending, [Entry(line, 1)]);
    }
  }

  lemma CountedOnceMore(canon: Canon, init: seq<Entry>, e: Entry)
    ensures Expand(canon, init + [Entry(e.line, e.count + 1)]) ==
            Expand(canon, init + [e]) + [Canonical(canon, e.line)]
  {
    var more, one := Entry(e.line, e.count + 1), Canonical(canon, e.line);
    ExpandAppend(canon, init, [more]);
    ExpandAppend(canon, init, [e]);
    ExpandOne(canon, more);
    ExpandOne(canon, e);
    RepeatedSum(one, e.count, 1);
    assert Repeated(one, 1) == [one];
  }

  lemma OneIsTwo(canon: Canon, both: Entry, m: Entry, p: Entry)
    requires Same(canon, both.line, m.line) && Same(canon, m.line, p.line) && both.count == m.count + p.count
    ensures Expand(canon, [both]) == Expand(canon, [m]) + Expand(canon, [p])
  {
    ExpandOne(canon, both);
    ExpandOne(canon, m);
    ExpandOne(canon, p);
    RepeatedSum(Canonical(canon, p.line), m.count, p.count);
  }

  lemma Regroup(i: seq<Line>, x: seq<Line>, y: seq<Line>, r: seq<Line>)
    ensures i + (x + y) + r == (i + x) + (y + r)
  {
  }

  lemma MergedEntry(canon: Canon, init: seq<Entry>, m: Entry, p: Entry, rest: seq<Entry>)
    requires Same(canon, m.line, p.line)
    ensures Expand(canon, init + [Entry(m.line, m.count + p.count)] + rest) ==
            Expand(canon, init + [m]) + Expand(canon, [p] + rest)
  {
    var both := Entry(m.line, m.count + p.count);
    ExpandAppend(canon, init + [both], rest);
    ExpandAppend(canon, init, [both]);
    ExpandAppend(canon, init, [m]);
    ExpandAppend(canon, [p], rest);
    OneIsTwo(canon, both, m, p);
    Regroup(Expand(canon, init), Expand(canon, [m]), Expand(canon, [p]), Expand(canon, rest));
  }

  /** Merging across the boundary expands to the two parts in order. */
  lemma MergeExpands(canon: Canon, logs: seq<Entry>, pending: seq<Entry>)
    requires pending != []
    ensures Expand(canon, Merged(canon, logs, pending)) == Expand(canon, logs) + Expand(canon, pending)
  {
    var n := |logs|;
    if n > 0 && Same(canon, logs[n - 1].line, pending[0].line) {
      MergedEntry(canon, logs[..n - 1], logs[n - 1], pending[0], pending[1..]);
      assert pending == [pending[0]] + pending[1..];
      assert logs == logs[..n - 1] + [logs[n - 1]];
    } else {
      ExpandAppend(canon, logs, pending);
    }
  }

  lemma TrimExpands(canon: Canon, logs: seq<Entry>)
    ensures IsSuffix(Expand(canon, Trimmed(logs)), Expand(canon, logs))
  {
    if |logs| > MAX_LOG_LINES {
      var k := |logs| - MAX_LOG_LINES;
      assert logs == logs[..k] + logs[k..];
      ExpandAppend(canon, logs[..k], logs[k..]);
    }
  }

  // ----- histories -----

  datatype Event = Append(line: Line) | Flush

  function After(canon: Canon, b: Buffers, e: Event): Buffers {
    match e
    case Append(line) => b.(pending := AppendLine(canon, b.pending, line))
    case Flush => Flushed(canon, b)
  }

  function StateOf(canon: Canon, h: seq<Event>): Buffers {
    if h == [] then Buffers([], []) else After(canon, StateOf(canon, h[..|h| - 1]), h[|h| - 1])
  }

  function AppendedBy(canon: Canon, e: Event): seq<Line> {
    match e
    case Append(line) => [Canonical(canon, line)]
    case Flush => []
  }

  /** Every line ever appended, in its normal form. */
  function Appended(canon: Canon, h: seq<Event>): seq<Line> {
    if h == [] then []
    else
      Appended(canon, h[..|h| - 1]) + AppendedBy(canon, h[|h| - 1])
  }

  ghost predicate Good(canon: Canon, b: Buffers) {
    && NoEqualNeighbours(canon, b.logs) && NoEqualNeighbours(canon, b.pending)
    && Counted(b.logs) && Counted(b.pending)
    && |b.logs| <= MAX_LOG_LINES
  }

  lemma FlushKeepsGood(canon: Canon, b: Buffers)
    requires Good(canon, b)
    ensures Good(canon, Flushed(canon, b))
  {
    if b.pending != [] {
      MergedIsGood(canon, b.logs, b.pending);
      TrimmedIsGood(canon, Merged(canon, b.logs, b.pending));
    }
  }

  lemma TrimmedIsGood(canon: Canon, m: seq<Entry>)
    requires NoEqualNeighbours(canon, m) && Counted(m)
    ensures NoEqualNeighbours(canon, Trimmed(m)) && Counted(Trimmed(m)) && |Trimmed(m)| <= MAX_LOG_LINES
  {
    var t := Trimmed(m);
    assert forall i :: 0 <= i < |t| ==> t[i] == m[|m| - |t| + i];
  }

  lemma MergedIsGood(canon: Canon, logs: seq<Entry>, pending: seq<Entry>)
    requires NoEqualNeighbours(canon, logs) && NoEqualNeighbours(canon, pending)
    requires Counted(logs) && Counted(pending) && pending != []
    ensures NoEqualNeighbours(canon, Merged(canon, logs, pending)) && Counted(Merged(canon, logs, pending))
  {
    var n := |logs|;
    if n > 0 && Same(canon, logs[n - 1].line, pending[0].line) {
      var both := Entry(logs[n - 1].line, logs[n - 1].count + pending[0].count);
      JoinedIsGood(canon, logs[..n - 1], [both] + pending[1..]);
    } else {
      JoinedIsGood(canon, logs, pending);
    }
  }

  lemma JoinedIsGood(canon: Canon, a: seq<Entry>, b: seq<Entry>)
    requires NoEqualNeighbours(canon, a) && NoEqualNeighbours(canon, b) && Counted(a) && Counted(b)
    requires a != [] && b != [] ==> !Same(canon, a[|a| - 1].line, b[0].line)
    ensures NoEqualNeighbours(canon, a + b) && Counted(a + b)
  {
    assert forall i :: 0 <= i < |b| ==> (a + b)[|a| + i] == b[i];
  }

  /** What the user can see or will see at the next flush. */
  function Shown(canon: Canon, b: Buffers): seq<Line> {
    Expand(canon, b.logs) + Expand(canon, b.pending)
  }

  lemma AppendShows(canon: Canon, b: Buffers, line: Line)
    ensures Shown(canon, b.(pending := AppendLine(canon, b.pending, line))) == Shown(canon, b) + [Canonical(canon, line)]
  {
    AppendExpands(canon, b.pending, line);
  }

  lemma FlushShowsSuffix(canon: Canon, b: Buffers)
    ensures IsSuffix(Shown(canon, Flushed(canon, b)), Shown(canon, b))
  {
    if b.pending != [] {
      MergeExpands(canon, b.logs, b.pending);
      TrimExpands(canon, Merged(canon, b.logs, b.pending));
      var kept := Expand(canon, Trimmed(Merged(canon, b.logs, b.pending)));
      assert Shown(canon, Flushed(canon, b)) == kept + [];
    }
  }

  lemma SuffixTransitive(a: seq<Line>, b: seq<Line>, c: seq<Line>)
    requires IsSuffix(a, b) && IsSuffix(b, c)
    ensures IsSuffix(a, c)
  {
  }

  /** In every history the log and the pending buffer, written out, are a suffix of all lines
      appended, up to Swift's equality of strings; the log has no equal neighbours and at most 500 rows. */
  lemma {:induction false} LogIsASuffix(canon: Canon, h: seq<Event>)
    ensures Good(canon, StateOf(canon, h))
    ensures IsSuffix(Shown(canon, StateOf(canon, h)), Appended(canon, h))
  {
    if h == [] {
    } else {
      var init, last := h[..|h| - 1], h[|h| - 1];
      LogIsASuffix(canon, init);
      StepKeepsSuffix(canon, StateOf(canon, init), last, Appended(canon, init));
    }
  }

  lemma StepKeepsSuffix(canon: Canon, b: Buffers, e: Event, lines: seq<Line>)
    requires Good(canon, b) && IsSuffix(Shown(canon, b), lines)
    ensures Good(canon, After(canon, b, e)) && IsSuffix(Shown(canon, After(canon, b, e)), lines + AppendedBy(canon, e))
  {
    match e
    case Append(line) =>
      AppendShows(canon, b, line);
      AppendKeepsGood(canon, b, line);
      SuffixSnoc(Shown(canon, b), lines, Canonical(canon, line));
    case Flush =>
      FlushKeepsGood(canon, b);
      FlushShowsSuffix(canon, b);
      SuffixTransitive(Shown(canon, Flushed(canon, b)), Shown(canon, b), lines);
      assert lines + [] == lines;
  }

  lemma SuffixSnoc(a: seq<Line>, b: seq<Line>, line: Line)
    requires IsSuffix(a, b)
    ensures IsSuffix(a + [line], b + [line])
  {
    assert (b + [line])[|b| - |a|..] == b[|b| - |a|..] + [line];
  }

  lemma AppendKeepsGood(canon: Canon, b: Buffers, line: Line)
    requires Good(canon, b)
    ensures Good(canon, b.(pending := AppendLine(canon, b.pending, line)))
  {
  }

  // ----- what a flush keeps -----

  /** A flush that loses anything keeps exactly 500 rows. */
  lemma FlushKeepsMost(canon: Canon, b: Buffers)
    requires b.pending != []
    ensures
      var joined := b.logs != [] && Same(canon, b.logs[|b.logs| - 1].line, b.pending[0].line);
      var rows := |b.logs| + |b.pending| - if joined then 1 else 0;
      && |Flushed(canon, b).logs| == (if rows <= 500 then rows else 500)
      && (rows <= 500 ==> Shown(canon, Flushed(canon, b)) == Shown(canon, b))
  {
    MergeExpands(canon, b.logs, b.pending);
    assert Shown(canon, Flushed(canon, b)) == Expand(canon, Flushed(canon, b).logs) + [];
  }

  lemma {:induction false} RowsAreLines(canon: Canon, entries: seq<Entry>)
    requires Counted(entries)
    ensures |entries| <= |Expand(canon, entries)|
  {
    if entries == [] {
    } else {
      RowsAreLines(canon, entries[..|entries| - 1]);
    }
  }

  /** Until more than 500 lines came, everything is shown. */
  lemma {:induction false} NothingLostUntilFull(canon: Canon, h: seq<Event>)
    ensures |Appended(canon, h)| <= 500 ==> Shown(canon, StateOf(canon, h)) == Appended(canon, h)
  {
    if h == [] {
    } else {
      var init, last := h[..|h| - 1], h[|h| - 1];
      NothingLostUntilFull(canon, init);
      LogIsASuffix(canon, init);
      var b := StateOf(canon, init);
      match last
      case Append(line) => AppendShows(canon, b, line);
      case Flush =>
        assert Appended(canon, init) + [] == Appended(canon, init);
        if b.pending != [] && |Appended(canon, h)| <= 500 {
          RowsAreLines(canon, b.logs);
          RowsAreLines(canon, b.pending);
          FlushKeepsMost(canon, b);
        }
    }
  }
}
