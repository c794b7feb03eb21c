/** NIP-26 condition query strings (src/delegation.rs). */
module Delegation {
  import opened Text
  import opened Events

  datatype Field = KindField | CreatedAtField

  datatype Operator = LessThan | GreaterThan | Equals | NotEquals

  datatype Condition = Condition(field: Field, operator: Operator, values: seq<U64>)

  // ----- permission -----

  /** `Condition::allows_event`. */
  predicate Allows(c: Condition, e: Event) {
    var x := match c.field case KindField => e.kind case CreatedAtField => e.createdAt;
    match c.operator
    case LessThan => |c.values| == 1 && x < c.values[0]
    case GreaterThan => |c.values| == 1 && x > c.values[0]
    case Equals => x in c.values
    case NotEquals => x !in c.values
  }

  /** `ConditionQuery::allows_event`. */
  predicate AllowsEvent(cs: seq<Condition>, e: Event) {
    forall i :: 0 <= i < |cs| ==> Allows(cs[i], e)
  }

  // ----- splitting -----

  /** `str::split`: always at least one piece. */
  function Split(s: string, sep: char): (r: seq<string>)
    ensures r != []
  {
    if s == "" then [""]
    else if s[0] == sep then [""] + Split(s[1..], sep)
    else
      var rest := Split(s[1..], sep);
      [[s[0]] + rest[0]] + rest[1..]
  }

  /** `str::split_terminator`: an empty last piece is dropped. */
  function SplitTerminator(s: string, sep: char): seq<string> {
    var pieces := Split(s, sep);
    if pieces[|pieces| - 1] == "" then pieces[..|pieces| - 1] else pieces
  }

  function Join(parts: seq<string>, sep: char): string {
    if parts == [] then ""
    else if |parts| == 1 then parts[0]
    else parts[0] + [sep] + Join(parts[1..], sep)
  }

  lemma {:induction false} SplitWhole(a: string, sep: char)
    requires sep !in a
    ensures Split(a, sep) == [a]
  {
    if a == "" {
    } else {
      SplitWhole(a[1..], sep);
      assert a == [a[0]] + a[1..];
    }
  }

  /** Splitting at a separator that was put in. */
  lemma {:induction false} SplitConcat(a: string, b: string, sep: char)
    ensures Split(a + [sep] + b, sep) == Split(a, sep) + Split(b, sep)
  {
    if a == "" {
      assert a + [sep] + b == [sep] + b;
      assert ([sep] + b)[1..] == b;
    } else {
      assert (a + [sep] + b)[1..] == a[1..] + [sep] + b;
      SplitConcat(a[1..], b, sep);
    }
  }

  lemma {:induction false} SplitJoin(parts: seq<string>, sep: char)
    requires parts != [] && forall p :: p in parts ==> sep !in p
    ensures Split(Join(parts, sep), sep) == parts
  {
    SplitWhole(parts[0], sep);
    if |parts| <= 1 {
    } else {
      SplitJoin(parts[1..], sep);
      SplitConcat(parts[0], Join(parts[1..], sep), sep);
      assert parts == [parts[0]] + parts[1..];
    }
  }

  /** The last piece is empty exactly for the empty string and after a final separator. */
  lemma {:induction false} LastPiece(s: string, sep: char)
    ensures Split(s, sep)[|Split(s, sep)| - 1] == "" <==> s == "" || s[|s| - 1] == sep
  {
    if s == "" {
    } else {
      LastPiece(s[1..], sep);
    }
  }

  // ----- parsing -----

  predicate IsWord(c: char) {
    IsDigit(c) || 'a' <= c <= 'z' || 'A' <= c <= 'Z' || c == '_'
  }

  predicate IsOp(c: char) {
    c == '<' || c == '>' || c == '=' || c == '!'
  }

  predicate IsValueChar(c: char) {
    IsDigit(c) || c == ','
  }

  /** Length of the longest prefix in a character class. */
  function Span(s: string, p: char -> bool): (n: nat)
    ensures n <= |s| && (n < |s| ==> !p(s[n])) && forall i :: 0 <= i < n ==> p(s[i])
  {
    if s != "" && p(s[0]) then 1 + Span(s[1..], p) else 0
  }

  lemma SpanExact(a: string, b: string, p: char -> bool)
    requires forall i :: 0 <= i < |a| ==> p(a[i])
    requires b == "" || !p(b[0])
    ensures Span(a + b, p) == |a|
  {
    var n := Span(a + b, p);
    assert forall i :: 0 <= i < |a| ==> (a + b)[i] == a[i];
    assert b != "" ==> (a + b)[|a|] == b[0];
  }

  /** The groups of a match that starts with `w` word characters and `o` operator characters. */
  function MatchAt(cs: string, w: nat, o: nat): (string, string, string)
    requires w + o <= |cs|
  {
    var v := Span(cs[w + o..], IsValueChar);
    (cs[..w], cs[w..w + o], cs[w + o..w + o + v])
  }

  /** The first match, anywhere in the text, of a word, an operator run and a run of values. */
  function Captures(cs: string): Option<(string, string, string)>
    decreases |cs|
  {
    if cs == "" then None
    else
      var w := Span(cs, IsWord);
      var o := Span(cs[w..], IsOp);
      if w > 0 && o > 0 then
        Some(MatchAt(cs, w, o))
      else Captures(cs[if w == 0 then 1 else w..])
  }

  /** A word character before an operator character. */
  predicate IsEdge(s: string, i: nat) {
    i + 1 < |s| && IsWord(s[i]) && IsOp(s[i + 1])
  }

  predicate NoEdge(s: string) {
    forall i: nat :: i < |s| ==> !IsEdge(s, i)
  }

  /** From a: a whole run of w word characters, of o operator characters and of v value characters, with
      no edge before. */
  predicate IsFirstMatch(s: string, a: nat, w: nat, o: nat, v: nat) {
    && w > 0 && o > 0 && a + w + o + v <= |s|
    && (forall i :: a <= i < a + w ==> IsWord(s[i]))
    && (forall i :: a + w <= i < a + w + o ==> IsOp(s[i]))
    && (forall i :: a + w + o <= i < a + w + o + v ==> IsValueChar(s[i]))
    && (a == 0 || !IsWord(s[a - 1]))
    && (a + w + o == |s| || !IsOp(s[a + w + o]))
    && (a + w + o + v == |s| || !IsValueChar(s[a + w + o + v]))
    && forall i: nat :: i < a ==> !IsEdge(s, i)
  }

  function Groups(s: string, a: nat, w: nat, o: nat, v: nat): (string, string, string)
    requires a + w + o + v <= |s|
  {
    (s[a..a + w], s[a + w..a + w + o], s[a + w + o..a + w + o + v])
  }

  lemma SpanAt(s: string, a: nat, p: char -> bool)
    requires a <= |s|
    ensures
      var n := Span(s[a..], p);
      a + n <= |s| && (forall i :: a <= i < a + n ==> p(s[i])) && (a + n == |s| || !p(s[a + n]))
  {
    var n := Span(s[a..], p);
    assert forall i :: a <= i < a + n ==> s[i] == s[a..][i - a];
    assert a + n < |s| ==> s[a + n] == s[a..][n];
  }

  lemma MatchHere(s: string, w: nat, o: nat)
    requires w == Span(s, IsWord) > 0 && w <= |s| && o == Span(s[w..], IsOp) > 0
    ensures w + o <= |s| && IsEdge(s, w - 1)
    ensures
      var v := Span(s[w + o..], IsValueChar);
      IsFirstMatch(s, 0, w, o, v) && MatchAt(s, w, o) == Groups(s, 0, w, o, v)
  {
    assert s[0..] == s;
    SpanAt(s, 0, IsWord);
    SpanAt(s, w, IsOp);
    RunsMatch(s, w, o, Span(s[w + o..], IsValueChar));
  }

  lemma RunsMatch(s: string, w: nat, o: nat, v: nat)
    requires w > 0 && o > 0 && w + o <= |s| && v == Span(s[w + o..], IsValueChar)
    requires (forall i :: 0 <= i < w ==> IsWord(s[i])) && forall i :: w <= i < w + o ==> IsOp(s[i])
    requires w + o == |s| || !IsOp(s[w + o])
    ensures w + o + v <= |s| && IsFirstMatch(s, 0, w, o, v) && MatchAt(s, w, o) == Groups(s, 0, w, o, v)
  {
    SpanAt(s, w + o, IsValueChar);
    assert s[0..w] == s[..w];
  }

  lemma MatchLater(s: string, k: nat, a: nat, w: nat, o: nat, v: nat)
    requires k <= |s| && IsFirstMatch(s[k..], a, w, o, v)
    requires forall i: nat :: i < k ==> !IsEdge(s, i)
    requires k == 0 || k == |s| || !IsWord(s[k]) || !IsWord(s[k - 1])
    ensures IsFirstMatch(s, k + a, w, o, v) && Groups(s, k + a, w, o, v) == Groups(s[k..], a, w, o, v)
  {
    assert forall i :: 0 <= i < |s| - k ==> s[k..][i] == s[k + i];
    SliceOfRest(s, k, a, w);
    SliceOfRest(s, k, a + w, o);
    SliceOfRest(s, k, a + w + o, v);
    forall i: nat | i < k + a
      ensures !IsEdge(s, i)
    {
      if i >= k {
        assert !IsEdge(s[k..], i - k);
      }
    }
  }

  lemma SliceOfRest(s: string, k: nat, a: nat, n: nat)
    requires k + a + n <= |s|
    ensures s[k..][a..a + n] == s[k + a..k + a + n]
  {
  }

  lemma NoEdgeSkips(s: string, k: nat)
    requires k <= |s| && forall i: nat :: i < k ==> !IsEdge(s, i)
    ensures NoEdge(s) <==> NoEdge(s[k..])
  {
    assert forall i: nat :: i < |s| - k ==> (IsEdge(s[k..], i) <==> IsEdge(s, k + i));
    if NoEdge(s[k..]) {
      forall i: nat | i < |s|
        ensures !IsEdge(s, i)
      {
        if i >= k {
          assert !IsEdge(s[k..], i - k);
        }
      }
    }
  }

  /** A word run without operator after it, or another character, cannot begin a match. */
  lemma NothingToSkip(s: string, k: nat)
    requires s != "" && (Span(s, IsWord) == 0 || Span(s[Span(s, IsWord)..], IsOp) == 0)
    requires k == if Span(s, IsWord) == 0 then 1 else Span(s, IsWord)
    ensures 0 < k <= |s| && (forall i: nat :: i < k ==> !IsEdge(s, i))
    ensures k == |s| || !IsWord(s[k]) || !IsWord(s[k - 1])
  {
    var w := Span(s, IsWord);
    assert s[0..] == s;
    SpanAt(s, 0, IsWord);
    SpanAt(s, w, IsOp);
    WordsAreNoEdges(s, w);
  }

  lemma WordsAreNoEdges(s: string, w: nat)
    requires w <= |s| && (forall i :: 0 <= i < w ==> IsWord(s[i]))
    requires w == |s| || !IsOp(s[w]) || w == 0
    ensures forall i: nat :: i < w ==> !IsEdge(s, i)
  {
    assert forall c :: IsWord(c) ==> !IsOp(c);
  }

  /** For every text: the pattern matches somewhere exactly if a word character stands before an operator
      character, and what it captures is then the first such place, in whole runs. */
  lemma {:induction false} CapturesFirst(s: string)
    ensures Captures(s).None? <==> NoEdge(s)
    ensures Captures(s).Some? ==>
              exists a, w, o, v :: IsFirstMatch(s, a, w, o, v) && Captures(s).value == Groups(s, a, w, o, v)
    decreases |s|
  {
    if s == "" {
    } else {
      var w := Span(s, IsWord);
      var o := Span(s[w..], IsOp);
      if w > 0 && o > 0 {
        MatchHere(s, w, o);
      } else {
        var k := if w == 0 then 1 else w;
        NothingToSkip(s, k);
        NoEdgeSkips(s, k);
        CapturesFirst(s[k..]);
        if Captures(s).Some? {
          var a, w', o', v :| IsFirstMatch(s[k..], a, w', o', v) && Captures(s).value == Groups(s[k..], a, w', o', v);
          MatchLater(s, k, a, w', o', v);
        }
      }
    }
  }

  function ParseField(s: string): Option<Field> {
    if s == "kind" then Some(KindField)
    else if s == "created_at" then Some(CreatedAtField)
    else None
  }

  function ParseOperator(s: string): Option<Operator> {
    if s == "<" then Some(LessThan)
    else if s == ">" then Some(GreaterThan)
    else if s == "=" then Some(Equals)
    else if s == "!" then Some(NotEquals)
    else None
  }

  function ParseValues(pieces: seq<string>): Option<seq<U64>> {
    if pieces == [] then Some([])
    else
      var first, rest := ParseU64(pieces[0]), ParseValues(pieces[1..]);
      if first.Some? && rest.Some? then Some([first.value] + rest.value) else None
  }

  /** `str_to_condition`. */
  function StrToCondition(cs: string): Option<Condition> {
    var caps := Captures(cs);
    if caps.None? then None
    else
      var (f, o, v) := caps.value;
      var field, operator, values := ParseField(f), ParseOperator(o), ParseValues(SplitTerminator(v, ','));
      if field.Some? && operator.Some? && values.Some?
      then Some(Condition(field.value, operator.value, values.value))
      else None
  }

  function ParseConditions(pieces: seq<string>): Option<seq<Condition>> {
    if pieces == [] then Some([])
    else
      var init, last := ParseConditions(pieces[..|pieces| - 1]), StrToCondition(pieces[|pieces| - 1]);
      if init.Some? && last.Some? then Some(init.value + [last.value]) else None
  }

  function ParseQuery(value: string): Option<seq<Condition>> {
    ParseConditions(SplitTerminator(value, '&'))
  }

  lemma {:induction false} OneBadPiece(pieces: seq<string>, n: nat)
    requires n <= |pieces| && ParseConditions(pieces[..n]).None?
    ensures ParseConditions(pieces).None?
  {
    if n < |pieces| {
      assert pieces[..|pieces| - 1][..n] == pieces[..n];
      OneBadPiece(pieces[..|pieces| - 1], n);
    } else {
      assert pieces[..n] == pieces;
    }
  }

  /** `ConditionQuery::from_str`: stops at the first piece that does not parse. */
  method FromStr(value: string) returns (r: Option<seq<Condition>>)
    ensures r == ParseQuery(value)
  {
    var conditions: seq<Condition> := [];
    var pieces := SplitTerminator(value, '&');
    for i := 0 to |pieces|
      invariant ParseConditions(pieces[..i]) == Some(conditions)
    {
      assert pieces[..i + 1][..i] == pieces[..i];
      var c := StrToCondition(pieces[i]);
      if c.None? {
        OneBadPiece(pieces, i + 1);
        return None;
      }
      conditions := conditions + [c.value];
    }
    assert pieces[..|pieces|] == pieces;
    r := Some(conditions);
  }

  // ----- printing -----

  function FieldName(f: Field): string {
    match f case KindField => "kind" case CreatedAtField => "created_at"
  }

  function OperatorName(o: Operator): string {
    match o case LessThan => "<" case GreaterThan => ">" case Equals => "=" case NotEquals => "!"
  }

  function PrintEach(values: seq<U64>): seq<string> {
    seq(|values|, i requires 0 <= i < |values| => PrintNat(values[i]))
  }

  function PrintCondition(c: Condition): string {
    FieldName(c.field) + OperatorName(c.operator) + Join(PrintEach(c.values), ',')
  }

  function PrintConditions(cs: seq<Condition>): seq<string> {
    seq(|cs|, i requires 0 <= i < |cs| => PrintCondition(cs[i]))
  }

  function PrintQuery(cs: seq<Condition>): string {
    Join(PrintConditions(cs), '&')
  }

  // ----- round trip -----

  lemma {:induction false} ParsePrintedValues(values: seq<U64>)
    ensures ParseValues(PrintEach(values)) == Some(values)
  {
    if values == [] {
    } else {
      ParsePrintedValues(values[1..]);
      PrintedNumberParses(values[0]);
      ValuesCons(PrintNat(values[0]), PrintEach(values[1..]), values[0], values[1..]);
      PrintEachCons(values);
      assert values == [values[0]] + values[1..];
    }
  }

  lemma ValuesCons(piece: string, pieces: seq<string>, v: U64, values: seq<U64>)
    requires ParseU64(piece) == Some(v) && ParseValues(pieces) == Some(values)
    ensures ParseValues([piece] + pieces) == Some([v] + values)
  {
    assert ([piece] + pieces)[1..] == pieces;
  }

  lemma PrintEachCons(values: seq<U64>)
    requires values != []
    ensures PrintEach(values) == [PrintNat(values[0])] + PrintEach(values[1..])
  {
  }

  lemma PrintedNumberParses(n: U64)
    ensures ParseU64(PrintNat(n)) == Some(n)
  {
    var s := PrintNat(n);
    assert IsDigit(s[0]);
  }

  lemma {:induction false} JoinChars(parts: seq<string>, sep: char, p: char -> bool)
    requires p(sep) && forall i, j :: 0 <= i < |parts| && 0 <= j < |parts[i]| ==> p(parts[i][j])
    ensures forall k :: 0 <= k < |Join(parts, sep)| ==> p(Join(parts, sep)[k])
  {
    if |parts| <= 1 {
    } else {
      JoinChars(parts[1..], sep, p);
    }
  }

  lemma PrintedValuesReadBack(values: seq<U64>)
    ensures
      var text := Join(PrintEach(values), ',');
      && (forall k :: 0 <= k < |text| ==> IsValueChar(text[k]))
      && ParseValues(SplitTerminator(text, ',')) == Some(values)
  {
    var parts := PrintEach(values);
    assert forall i, j :: 0 <= i < |parts| && 0 <= j < |parts[i]| ==> IsDigit(parts[i][j]);
    JoinChars(parts, ',', IsValueChar);
    if values == [] {
      assert SplitTerminator("", ',') == [];
    } else {
      forall p | p in parts
        ensures ',' !in p
      {
        var i :| 0 <= i < |parts| && parts[i] == p;
      }
      SplitJoin(parts, ',');
      ParsePrintedValues(values);
    }
  }

  lemma MatchAtStart(cs: string, w: nat, o: nat)
    requires cs != "" && w == Span(cs, IsWord) > 0 && o == Span(cs[w..], IsOp) > 0
    ensures Captures(cs) == Some(MatchAt(cs, w, o))
  {
  }

  /** A word, an operator run and a run of values are captured whole. */
  lemma CapturesExact(f: string, o: string, v: string)
    requires f != "" && forall i :: 0 <= i < |f| ==> IsWord(f[i])
    requires o != "" && forall i :: 0 <= i < |o| ==> IsOp(o[i])
    requires forall i :: 0 <= i < |v| ==> IsValueChar(v[i])
    ensures Captures(f + o + v) == Some((f, o, v))
  {
    SpansExact(f, o, v);
    MatchAtStart(f + o + v, |f|, |o|);
    MatchAtExact(f, o, v);
  }

  lemma SpansExact(f: string, o: string, v: string)
    requires forall i :: 0 <= i < |f| ==> IsWord(f[i])
    requires o != "" && forall i :: 0 <= i < |o| ==> IsOp(o[i])
    requires forall i :: 0 <= i < |v| ==> IsValueChar(v[i])
    ensures Span(f + o + v, IsWord) == |f| && Span((f + o + v)[|f|..], IsOp) == |o|
  {
    var text := f + o + v;
    assert text == f + (o + v) && text[|f|..] == o + v;
    WordSpan(f, o + v);
    OpSpan(o, v);
  }

  lemma WordSpan(f: string, rest: string)
    requires (forall i :: 0 <= i < |f| ==> IsWord(f[i])) && rest != "" && IsOp(rest[0])
    ensures Span(f + rest, IsWord) == |f|
  {
    SpanExact(f, rest, IsWord);
  }

  lemma OpSpan(o: string, v: string)
    requires forall i :: 0 <= i < |o| ==> IsOp(o[i])
    requires forall i :: 0 <= i < |v| ==> IsValueChar(v[i])
    ensures Span(o + v, IsOp) == |o|
  {
    assert v == "" || IsValueChar(v[0]);
    SpanExact(o, v, IsOp);
  }

  lemma MatchAtExact(f: string, o: string, v: string)
    requires forall i :: 0 <= i < |v| ==> IsValueChar(v[i])
    ensures MatchAt(f + o + v, |f|, |o|) == (f, o, v)
  {
    var text := f + o + v;
    assert text[|f| + |o|..] == v + "";
    SpanExact(v, "", IsValueChar);
    assert text[..|f|] == f && text[|f|..|f| + |o|] == o;
    assert text[|f| + |o|..|f| + |o| + |v|] == v;
  }

  lemma NamesAreClasses(f: Field, o: Operator)
    ensures FieldName(f) != "" && forall i :: 0 <= i < |FieldName(f)| ==> IsWord(FieldName(f)[i])
    ensures OperatorName(o) != "" && forall i :: 0 <= i < |OperatorName(o)| ==> IsOp(OperatorName(o)[i])
    ensures ParseField(FieldName(f)) == Some(f) && ParseOperator(OperatorName(o)) == Some(o)
  {
  }

  /** A printed condition is one match of the pattern and parses to itself. */
  lemma PrintedConditionParses(c: Condition)
    ensures StrToCondition(PrintCondition(c)) == Some(c)
    ensures PrintCondition(c) != "" && '&' !in PrintCondition(c)
  {
    var f, o, v := FieldName(c.field), OperatorName(c.operator), Join(PrintEach(c.values), ',');
    NamesAreClasses(c.field, c.operator);
    PrintedValuesReadBack(c.values);
    CapturesExact(f, o, v);
    NoAmpersand(f, o, v);
  }

  lemma NoAmpersand(f: string, o: string, v: string)
    requires forall i :: 0 <= i < |f| ==> IsWord(f[i])
    requires forall i :: 0 <= i < |o| ==> IsOp(o[i])
    requires forall i :: 0 <= i < |v| ==> IsValueChar(v[i])
    ensures '&' !in f + o + v
  {
    assert '&' !in f && '&' !in o && '&' !in v;
  }

  lemma ParseSnoc(pieces: seq<string>, piece: string, cs: seq<Condition>, c: Condition)
    requires ParseConditions(pieces) == Some(cs) && StrToCondition(piece) == Some(c)
    ensures ParseConditions(pieces + [piece]) == Some(cs + [c])
  {
    assert (pieces + [piece])[..|pieces|] == pieces;
  }

  lemma PrintedStep(init: seq<Condition>, last: Condition)
    requires ParseConditions(PrintConditions(init)) == Some(init)
    ensures ParseConditions(PrintConditions(init + [last])) == Some(init + [last])
  {
    PrintedConditionParses(last);
    ParseSnoc(PrintConditions(init), PrintCondition(last), init, last);
    assert PrintConditions(init + [last]) == PrintConditions(init) + [PrintCondition(last)];
  }

  lemma {:induction false} PrintedConditionsParse(cs: seq<Condition>)
    ensures ParseConditions(PrintConditions(cs)) == Some(cs)
  {
    if cs == [] {
    } else {
      var init, last := cs[..|cs| - 1], cs[|cs| - 1];
      assert cs == init + [last];
      PrintedConditionsParse(init);
      PrintedStep(init, last);
    }
  }

  /** Printing and parsing: every condition list comes back, empty lists and all u64 values included. */
  lemma QueryRoundTrip(cs: seq<Condition>)
    ensures ParseQuery(PrintQuery(cs)) == Some(cs)
  {
    var parts := PrintConditions(cs);
    if cs == [] {
      assert SplitTerminator("", '&') == [];
    } else {
      forall p | p in parts
        ensures '&' !in p && p != ""
      {
        var i :| 0 <= i < |parts| && parts[i] == p;
        PrintedConditionParses(cs[i]);
      }
      SplitJoin(parts, '&');
      assert parts[|parts| - 1] in parts;
      PrintedConditionsParse(cs);
    }
  }

  // ----- joining query strings -----

  /** Nothing, or text that already ends in the separator. */
  predicate EndsOpen(q: string) {
    q == "" || q[|q| - 1] == '&'
  }

  function Both(a: Option<seq<Condition>>, b: Option<seq<Condition>>): Option<seq<Condition>> {
    if a.Some? && b.Some? then Some(a.value + b.value) else None
  }

  lemma {:induction false} ParseConditionsAppend(a: seq<string>, b: seq<string>)
    ensures ParseConditions(a + b) == Both(ParseConditions(a), ParseConditions(b))
  {
    if b == [] {
      assert a + b == a;
      assert ParseConditions(a).Some? ==> ParseConditions(a).value + [] == ParseConditions(a).value;
    } else {
      var init, last := b[..|b| - 1], b[|b| - 1];
      assert (a + b)[..|a + b| - 1] == a + init;
      ParseConditionsAppend(a, init);
      if ParseConditions(a).Some? && ParseConditions(b).Some? {
        var x, y, z := ParseConditions(a).value, ParseConditions(init).value, StrToCondition(last).value;
        assert x + y + [z] == x + (y + [z]);
      }
    }
  }

  /** Joining two query strings with `&` parses to the concatenation of the two exactly when the
      first is closed; after an open one nothing parses. */
  lemma JoinedQueries(q1: string, q2: string)
    ensures ParseQuery(q1 + "&" + q2) == if EndsOpen(q1) then None else Both(ParseQuery(q1), ParseQuery(q2))
  {
    var a, b := Split(q1, '&'), Split(q2, '&');
    SplitConcat(q1, q2, '&');
    LastPiece(q1, '&');
    var pieces := SplitTerminator(q1 + "&" + q2, '&');
    assert pieces == a + SplitTerminator(q2, '&') by {
      assert (a + b)[|a + b| - 1] == b[|b| - 1];
      assert (a + b)[..|a + b| - 1] == a + b[..|b| - 1];
    }
    ParseConditionsAppend(a, SplitTerminator(q2, '&'));
    if EndsOpen(q1) {
      assert StrToCondition("") == None;
      assert ParseConditions(a).None?;
    }
  }

  /** The joined query permits what both permit. */
  lemma JoinedPermission(q1: string, q2: string, e: Event)
    requires ParseQuery(q1).Some? && ParseQuery(q2).Some? && !EndsOpen(q1)
    ensures ParseQuery(q1 + "&" + q2).Some?
    ensures AllowsEvent(ParseQuery(q1 + "&" + q2).value, e) <==>
            AllowsEvent(ParseQuery(q1).value, e) && AllowsEvent(ParseQuery(q2).value, e)
  {
    JoinedQueries(q1, q2);
    AllowsBoth(ParseQuery(q1).value, ParseQuery(q2).value, e);
  }

  lemma AllowsBoth(a: seq<Condition>, b: seq<Condition>, e: Event)
    ensures AllowsEvent(a + b, e) <==> AllowsEvent(a, e) && AllowsEvent(b, e)
  {
    assert forall i :: 0 <= i < |a| ==> (a + b)[i] == a[i];
    assert forall i :: 0 <= i < |b| ==> (a + b)[|a| + i] == b[i];
  }

  // ----- permission in plain text -----

  function FieldOf(name: string): Field {
    if name == "kind" then KindField else CreatedAtField
  }

  function OperatorOf(op: string): Operator {
    if op == "<" then LessThan else if op == ">" then GreaterThan else if op == "=" then Equals else NotEquals
  }

  /** One condition, as it is written: `=` permits exactly the listed numbers and `!` exactly the others,
      empty lists included; `<` and `>` compare with a single number and permit nothing without one. */
  lemma ConditionPermits(name: string, op: string, values: seq<U64>, e: Event)
    requires name == "kind" || name == "created_at"
    requires op == "<" || op == ">" || op == "=" || op == "!"
    ensures
      var q := name + op + Join(PrintEach(values), ',');
      var x := if name == "kind" then e.kind else e.createdAt;
      ParseQuery(q).Some? &&
      (AllowsEvent(ParseQuery(q).value, e) <==>
         || (op == "=" && x in values)
         || (op == "!" && x !in values)
         || (op == "<" && |values| == 1 && x < values[0])
         || (op == ">" && |values| == 1 && x > values[0]))
  {
    var c := Condition(FieldOf(name), OperatorOf(op), values);
    OneConditionParses(c);
    NamesOf(name, op);
    AllowsOne(c, e);
  }

  lemma OneConditionParses(c: Condition)
    ensures ParseQuery(PrintCondition(c)) == Some([c])
  {
    assert PrintConditions([c]) == [PrintCondition(c)];
    QueryRoundTrip([c]);
  }

  lemma NamesOf(name: string, op: string)
    requires name == "kind" || name == "created_at"
    requires op == "<" || op == ">" || op == "=" || op == "!"
    ensures FieldName(FieldOf(name)) == name && OperatorName(OperatorOf(op)) == op
  {
  }

  lemma AllowsOne(c: Condition, e: Event)
    ensures AllowsEvent([c], e) <==> Allows(c, e)
  {
    assert [c][0] == c;
  }

  /** A window of time, as it is written, permits exactly the events strictly inside it. */
  lemma WindowPermits(a: U64, b: U64, e: Event)
    ensures
      var q := "created_at>" + PrintNat(a) + "&" + ("created_at<" + PrintNat(b));
      ParseQuery(q).Some? && (AllowsEvent(ParseQuery(q).value, e) <==> a < e.createdAt < b)
  {
    TimePermits(">", a, e);
    TimePermits("<", b, e);
    assert "created_at" + ">" == "created_at>" && "created_at" + "<" == "created_at<";
    JoinedPermission("created_at>" + PrintNat(a), "created_at<" + PrintNat(b), e);
  }

  lemma TimePermits(op: string, a: U64, e: Event)
    requires op == "<" || op == ">"
    ensures
      var q := "created_at" + op + PrintNat(a);
      && ParseQuery(q).Some? && !EndsOpen(q)
      && (AllowsEvent(ParseQuery(q).value, e) <==> if op == "<" then e.createdAt < a else e.createdAt > a)
  {
    assert PrintEach([a]) == [PrintNat(a)];
    ConditionPermits("created_at", op, [a], e);
    var q, digits := "created_at" + op + PrintNat(a), PrintNat(a);
    assert q[|q| - 1] == digits[|digits| - 1] && IsDigit(digits[|digits| - 1]);
  }

  // ----- delegated events -----

  /** Signature checking: delegator, delegatee, conditions and signature. */
  type Verifier = (string, string, string, string) -> bool

  function FirstDelegation(tags: seq<Tag>): (t: Option<Tag>)
    ensures t.Some? ==> |t.value| == 4
  {
    if tags == [] then None
    else if |tags[0]| == 4 && tags[0][0] == "delegation" then Some(tags[0])
    else FirstDelegation(tags[1..])
  }

  /** `delegated_author`. */
  function DelegatedAuthor(verify: Verifier, e: Event): Option<string> {
    match FirstDelegation(e.tags)
    case None => None
    case Some(t) =>
      if !verify(t[1], e.pubkey, t[2], t[3]) then None
      else
        match ParseQuery(t[2])
        case None => None
        case Some(conditions) => if AllowsEvent(conditions, e) then Some(t[1]) else None
  }

  /** Tag i is the first four-element delegation tag. */
  predicate IsDelegation(tags: seq<Tag>, i: nat) {
    i < |tags| && |tags[i]| == 4 && tags[i][0] == "delegation" &&
    forall j :: 0 <= j < i ==> |tags[j]| != 4 || tags[j][0] != "delegation"
  }

  lemma {:induction false} FirstDelegationExactly(tags: seq<Tag>)
    ensures FirstDelegation(tags).None? ==> forall i: nat :: !IsDelegation(tags, i)
    ensures FirstDelegation(tags).Some? ==>
              exists i: nat :: IsDelegation(tags, i) && tags[i] == FirstDelegation(tags).value
  {
    if tags == [] {
    } else if |tags[0]| == 4 && tags[0][0] == "delegation" {
      assert IsDelegation(tags, 0);
    } else {
      var rest := tags[1..];
      FirstDelegationExactly(rest);
      assert forall j :: 0 <= j < |rest| ==> rest[j] == tags[j + 1];
      if FirstDelegation(rest).Some? {
        var i: nat :| IsDelegation(rest, i) && rest[i] == FirstDelegation(rest).value;
        assert IsDelegation(tags, i + 1);
      } else if exists i: nat :: IsDelegation(tags, i) {
        var i: nat :| IsDelegation(tags, i);
        assert IsDelegation(rest, i - 1);
      }
    }
  }

  /** An event counts for a delegator exactly if its first delegation tag names it with a signature over
      the author and conditions that parse and all permit the event. Later tags do not matter. */
  lemma DelegatedExactly(verify: Verifier, e: Event, delegator: string)
    ensures DelegatedAuthor(verify, e) == Some(delegator) <==>
            exists i: nat :: IsDelegation(e.tags, i) && e.tags[i][1] == delegator &&
              verify(delegator, e.pubkey, e.tags[i][2], e.tags[i][3]) &&
              ParseQuery(e.tags[i][2]).Some? && AllowsEvent(ParseQuery(e.tags[i][2]).value, e)
  {
    FirstDelegationExactly(e.tags);
    if FirstDelegation(e.tags).Some? {
      var i: nat :| IsDelegation(e.tags, i) && e.tags[i] == FirstDelegation(e.tags).value;
      assert forall j: nat :: IsDelegation(e.tags, j) ==> j == i;
    }
  }
}
