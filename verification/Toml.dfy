/** Printing string lists for config.toml and reading them back
    (NostrRelayApp/NostrRelayApp/Services/ConfigurationService.swift; TOML v1.0.0, sections String and Array). */
module Toml {
  import opened Text

  // ----- the printer -----

  /** `%X` of one hex digit. */
  function HexDigit(v: nat): char
    requires v < 16
  {
    if v < 10 then ((v + ('0' as int)) as char) else ((v - 10 + ('A' as int)) as char)
  }

  /** `\u%04X` for the control characters, all below 0x100. */
  function UnicodeEscape(v: nat): string
    requires v < 0x100
  {
    ['\\', 'u', '0', '0', HexDigit(v / 16), HexDigit(v % 16)]
  }

  function EscapeChar(c: char): string {
    if c == '\\' then "\\\\"
    else if c == '"' then "\\\""
    else if c == '\n' then "\\n"
    else if c == '\r' then "\\r"
    else if c == '\t' then "\\t"
    else if c as int < 0x20 || c as int == 0x7F then UnicodeEscape(c as int)
    else [c]
  }

  function Escape(s: string): string {
    if s == "" then "" else EscapeChar(s[0]) + Escape(s[1..])
  }

  lemma {:induction false} EscapeSnoc(s: string, c: char)
    ensures Escape(s + [c]) == Escape(s) + EscapeChar(c)
  {
    if s == "" {
      assert [c][1..] == "";
    } else {
      assert (s + [c])[1..] == s[1..] + [c];
      EscapeSnoc(s[1..], c);
    }
  }

  /** `tomlEscape`. */
  method TomlEscape(value: string) returns (out: string)
    ensures out == Escape(value)
  {
    out := "";
    for i := 0 to |value|
      invariant out == Escape(value[..i])
    {
      EscapeSnoc(value[..i], value[i]);
      assert value[..i + 1] == value[..i] + [value[i]];
      out := out + EscapeChar(value[i]);
    }
    assert value[..|value|] == value;
  }

  function Quote(s: string): string {
    "\"" + Escape(s) + "\""
  }

  /** `tomlStringArray`: quoted values joined by ", ". */
  function PrintArray(values: seq<string>): string {
    if values == [] then ""
    else if |values| == 1 then Quote(values[0])
    else Quote(values[0]) + ", " + PrintArray(values[1..])
  }

  // ----- an independent reader -----

  function HexNumber(digits: string): Option<nat> {
    if digits == "" then Some(0)
    else
      var init, last := HexNumber(digits[..|digits| - 1]), HexVal(digits[|digits| - 1]);
      if init.Some? && last.Some? then Some(16 * init.value + last.value) else None
  }

  predicate IsScalar(n: nat) {
    n < 0xD800 || 0xE000 <= n < 0x11_0000
  }

  /** A character written as n hex digits. */
  function ReadUnicode(s: string, n: nat): Option<(char, string)> {
    if |s| < n then None
    else
      var v := HexNumber(s[..n]);
      if v.Some? && IsScalar(v.value) then Some((v.value as char, s[n..])) else None
  }

  /** The escape sequences of basic strings, after the backslash. */
  function ReadEscape(s: string): Option<(char, string)> {
    if s == "" then None
    else if s[0] == 'b' then Some(('\U{8}', s[1..]))
    else if s[0] == 't' then Some(('\t', s[1..]))
    else if s[0] == 'n' then Some(('\n', s[1..]))
    else if s[0] == 'f' then Some(('\U{C}', s[1..]))
    else if s[0] == 'r' then Some(('\r', s[1..]))
    else if s[0] == '"' then Some(('"', s[1..]))
    else if s[0] == '\\' then Some(('\\', s[1..]))
    else if s[0] == 'u' then ReadUnicode(s[1..], 4)
    else if s[0] == 'U' then ReadUnicode(s[1..], 8)
    else None
  }

  /** Control characters other than tab may not appear unescaped. */
  predicate IsBare(c: char) {
    c != '"' && c != '\\' && (c == '\t' || (0x20 <= c as int && c as int != 0x7F))
  }

  /** One character of a basic string. */
  function ReadChar(s: string): Option<(char, string)> {
    if s == "" then None
    else if s[0] == '\\' then ReadEscape(s[1..])
    else if IsBare(s[0]) then Some((s[0], s[1..]))
    else None
  }

  lemma ReadCharAdvances(s: string)
    ensures ReadChar(s).Some? ==> |ReadChar(s).value.1| < |s|
  {
  }

  /** The rest of a basic string, up to its closing quote. */
  function ReadBody(s: string): (r: Option<(string, string)>)
    ensures r.Some? ==> |r.value.1| < |s|
    decreases |s|
  {
    if s == "" then None
    else if s[0] == '"' then Some(("", s[1..]))
    else
      var first := ReadChar(s);
      if first.None? then None
      else
        ReadCharAdvances(s);
        var rest := ReadBody(first.value.1);
        if rest.None? then None else Some(([first.value.0] + rest.value.0, rest.value.1))
  }

  function SkipSpace(s: string): (r: string)
    ensures |r| <= |s|
  {
    if s != "" && (s[0] == ' ' || s[0] == '\t' || s[0] == '\n' || s[0] == '\r') then SkipSpace(s[1..]) else s
  }

  /** The inside of an array of basic strings; a trailing comma is allowed. */
  function ReadArray(s: string): Option<seq<string>>
    decreases |s|
  {
    var t := SkipSpace(s);
    if t == "" then Some([])
    else if t[0] != '"' then None
    else
      var body := ReadBody(t[1..]);
      if body.None? then None
      else
        var after := SkipSpace(body.value.1);
        if after == "" then Some([body.value.0])
        else if after[0] != ',' then None
        else
          var rest := ReadArray(after[1..]);
          if rest.None? then None else Some([body.value.0] + rest.value)
  }

  // ----- round trip -----

  lemma ControlReads(c: char, rest: string)
    requires c as int < 0x100
    ensures ReadUnicode(UnicodeEscape(c as int)[2..] + rest, 4) == Some((c, rest))
  {
    var v := c as int;
    var hi, lo := HexDigit(v / 16), HexDigit(v % 16);
    var digits := ['0', '0', hi, lo];
    assert UnicodeEscape(v)[2..] == digits;
    assert (digits + rest)[..4] == digits && (digits + rest)[4..] == rest;
    assert HexVal(hi) == Some(v / 16) && HexVal(lo) == Some(v % 16);
    assert digits[..3] == ['0', '0', hi] && digits[..3][..2] == ['0', '0'] && ['0', '0'][..1] == ['0'] && ['0'][..0] == "";
    assert HexNumber(['0']) == Some(0);
    assert HexNumber(['0', '0']) == Some(0);
    assert HexNumber(['0', '0', hi]) == Some(v / 16);
    assert HexNumber(digits) == Some(16 * (v / 16) + v % 16);
  }

  /** Whatever stands for a character is read as that character, and never as a closing quote. */
  lemma EscapedCharReads(c: char, rest: string)
    ensures EscapeChar(c) != "" && EscapeChar(c)[0] != '"'
    ensures ReadChar(EscapeChar(c) + rest) == Some((c, rest))
  {
    var e := EscapeChar(c);
    if c != '\\' && c != '"' && c != '\n' && c != '\r' && c != '\t' && (c as int < 0x20 || c as int == 0x7F) {
      ControlReads(c, rest);
      assert (e + rest)[1..] == ['u'] + (e[2..] + rest);
      assert (e + rest)[1..][1..] == e[2..] + rest;
    } else if |e| == 2 {
      assert (e + rest)[1..] == [e[1]] + rest;
      assert (e + rest)[1..][1..] == rest;
    } else {
      assert (e + rest)[1..] == rest;
    }
  }

  lemma BodyCons(e: string, c: char, tail: string, s: string, rest: string)
    requires e != "" && e[0] != '"' && ReadChar(e + tail) == Some((c, tail))
    requires ReadBody(tail) == Some((s, rest))
    ensures ReadBody(e + tail) == Some(([c] + s, rest))
  {
  }

  lemma EscapeCons(s: string, rest: string)
    requires s != ""
    ensures Escape(s) + rest == EscapeChar(s[0]) + (Escape(s[1..]) + rest)
  {
  }

  lemma {:induction false} EscapedBodyReads(s: string, rest: string)
    ensures ReadBody(Escape(s) + ("\"" + rest)) == Some((s, rest))
  {
    if s == "" {
      assert ("\"" + rest)[1..] == rest;
      assert "" + ("\"" + rest) == "\"" + rest;
    } else {
      var tail := Escape(s[1..]) + ("\"" + rest);
      EscapeCons(s, "\"" + rest);
      EscapedCharReads(s[0], tail);
      EscapedBodyReads(s[1..], rest);
      BodyCons(EscapeChar(s[0]), s[0], tail, s[1..], rest);
      assert s == [s[0]] + s[1..];
    }
  }

  lemma QuoteReads(s: string, rest: string)
    ensures (Quote(s) + rest)[0] == '"'
    ensures ReadBody((Quote(s) + rest)[1..]) == Some((s, rest))
  {
    assert Quote(s) + rest == "\"" + (Escape(s) + ("\"" + rest));
    assert (Quote(s) + rest)[1..] == Escape(s) + ("\"" + rest);
    EscapedBodyReads(s, rest);
  }

  /** A quoted value at the end of the text. */
  lemma LastReads(v: string)
    ensures ReadArray(Quote(v)) == Some([v])
  {
    QuoteReads(v, "");
    assert Quote(v) + "" == Quote(v);
    assert SkipSpace(Quote(v)) == Quote(v);
    assert SkipSpace("") == "";
  }

  /** A quoted value followed by a comma. */
  lemma NextReads(v: string, rest: string)
    requires ReadArray(rest).Some?
    ensures ReadArray(Quote(v) + "," + rest) == Some([v] + ReadArray(rest).value)
  {
    assert Quote(v) + "," + rest == Quote(v) + ("," + rest);
    assert ("," + rest)[1..] == rest;
    CommaReads(v, "," + rest);
  }

  lemma CommaReads(v: string, tail: string)
    requires tail != "" && tail[0] == ',' && ReadArray(tail[1..]).Some?
    ensures ReadArray(Quote(v) + tail) == Some([v] + ReadArray(tail[1..]).value)
  {
    QuoteReads(v, tail);
    assert SkipSpace(Quote(v) + tail) == Quote(v) + tail;
    assert SkipSpace(tail) == tail;
  }

  lemma LeadingSpace(next: string)
    ensures ReadArray(" " + next) == ReadArray(next)
  {
    assert (" " + next)[1..] == next;
    assert SkipSpace(" " + next) == SkipSpace(next);
  }

  lemma JoinedReads(v: string, next: string, values: seq<string>)
    requires ReadArray(next) == Some(values)
    ensures ReadArray(Quote(v) + ", " + next) == Some([v] + values)
  {
    LeadingSpace(next);
    NextReads(v, " " + next);
    assert Quote(v) + ", " + next == Quote(v) + "," + (" " + next);
  }

  /** Every list of strings reads back as itself. */
  lemma {:induction false} ArrayRoundTrip(values: seq<string>)
    ensures ReadArray(PrintArray(values)) == Some(values)
  {
    if values == [] {
    } else if |values| == 1 {
      LastReads(values[0]);
      assert values == [values[0]];
    } else {
      ArrayRoundTrip(values[1..]);
      assert values == [values[0]] + values[1..];
      JoinedReads(values[0], PrintArray(values[1..]), values[1..]);
    }
  }
}
