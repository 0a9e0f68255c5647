/** The systemd autostart unit and reading its command line back. */
module Autostart {
  import opened Wrappers

  // ----- JSON strings (RFC 8259, section 7) -------------------------------------------

  const HEX := "0123456789abcdef"

  function EscapeChar(c: char): string {
    if c == '\"' then "\\\""
    else if c == '\\' then "\\\\"
    else if c == 8 as char then "\\b"
    else if c == '\t' then "\\t"
    else if c == '\n' then "\\n"
    else if c == 12 as char then "\\f"
    else if c == '\r' then "\\r"
    else if c < ' ' then "\\u00" + [HEX[c as int / 16], HEX[c as int % 16]]
    else [c]
  }

  function Escape(s: string): string {
    if s == "" then "" else EscapeChar(s[0]) + Escape(s[1..])
  }

  function JsonText(s: string): string {
    "\"" + Escape(s) + "\""
  }

  function HexDigit(c: char): Option<nat> {
    if '0' <= c <= '9' then Some(c as int - '0' as int)
    else if 'a' <= c <= 'f' then Some(c as int - 'a' as int + 10)
    else if 'A' <= c <= 'F' then Some(c as int - 'A' as int + 10)
    else None
  }

  /** Four hexadecimal digits at the front of `s`. */
  function HexQuad(s: string): (r: Option<nat>)
    ensures r.Some? ==> |s| >= 4 && r.value < 0x10000
  {
    if |s| < 4 then None
    else
      var a, b, c, d := HexDigit(s[0]), HexDigit(s[1]), HexDigit(s[2]), HexDigit(s[3]);
      if a.None? || b.None? || c.None? || d.None? then None
      else Some(a.value * 0x1000 + b.value * 0x100 + c.value * 0x10 + d.value)
  }

  /** The character a `\u` escape denotes and how many characters of `s`, the text after the
      `u`, it takes; a high surrogate needs a low one right behind it. */
  function UnicodeEscape(s: string): (r: Option<(char, nat)>)
    ensures r.Some? ==> 0 < r.value.1 <= |s|
  {
    var first := HexQuad(s);
    if first.None? then None
    else if first.value < 0xD800 || first.value >= 0xE000 then Some((first.value as char, 4))
    else if first.value >= 0xDC00 || |s| < 10 || s[4] != '\\' || s[5] != 'u' then None
    else
      var second := HexQuad(s[6..]);
      if second.None? || second.value < 0xDC00 || second.value >= 0xE000 then None
      else Some(((0x10000 + (first.value - 0xD800) * 0x400 + (second.value - 0xDC00)) as char, 10))
  }

  function SimpleEscape(c: char): Option<char> {
    if c == '\"' || c == '\\' || c == '/' then Some(c)
    else if c == 'b' then Some(8 as char)
    else if c == 'f' then Some(12 as char)
    else if c == 'n' then Some('\n')
    else if c == 'r' then Some('\r')
    else if c == 't' then Some('\t')
    else None
  }

  /** Parses the text after an opening quote: the string and what follows its closing quote. */
  function ParseString(s: string): (r: Option<(string, string)>)
    ensures r.Some? ==> |r.value.1| < |s|
    decreases |s|
  {
    if s == "" then None
    else if s[0] == '\"' then Some(("", s[1..]))
    else if s[0] == '\\' then
      if |s| < 2 then None
      else if s[1] == 'u' then
        var u := UnicodeEscape(s[2..]);
        if u.None? then None else Prepend(u.value.0, ParseString(s[2 + u.value.1..]))
      else
        var c := SimpleEscape(s[1]);
        if c.None? then None else Prepend(c.value, ParseString(s[2..]))
    else if s[0] < ' ' then None
    else Prepend(s[0], ParseString(s[1..]))
  }

  function Prepend(c: char, parsed: Option<(string, string)>): Option<(string, string)> {
    if parsed.None? then None else Some(([c] + parsed.value.0, parsed.value.1))
  }

  /** A stream of JSON strings with white space between them. */
  function ParseStream(s: string): Option<seq<string>>
    decreases |s|
  {
    if s == "" then Some([])
    else if s[0] in " \t\n\r" then ParseStream(s[1..])
    else if s[0] != '\"' then None
    else
      var first := ParseString(s[1..]);
      if first.None? then None
      else
        var rest := ParseStream(first.value.1);
        if rest.None? then None else Some([first.value.0] + rest.value)
  }

  // ----- replacing --------------------------------------------------------------------

  /** Replaces every occurrence, scanning left to right without overlap. */
  function ReplaceAll(s: string, from: string, to: string): string
    requires from != ""
    decreases |s|
  {
    if |s| < |from| then s
    else if s[..|from|] == from then to + ReplaceAll(s[|from|..], from, to)
    else [s[0]] + ReplaceAll(s[1..], from, to)
  }

  // ----- the unit ---------------------------------------------------------------------

  function RenderArgument(argument: string): string {
    ReplaceAll(ReplaceAll(JsonText(argument), "%", "%%"), "$", "$$")
  }

  function Command(arguments: seq<string>): string {
    if arguments == [] then ""
    else if |arguments| == 1 then RenderArgument(arguments[0])
    else RenderArgument(arguments[0]) + " " + Command(arguments[1..])
  }

  /** The text made of these lines. */
  function Text(lines: seq<string>): string {
    if lines == [] then "" else lines[0] + "\n" + Text(lines[1..])
  }

  const EXEC_START := "ExecStart="

  function UnitLines(arguments: seq<string>): seq<string> {
    ["[Unit]", "Description=codexhost login startup", "",
     "[Service]", "Type=oneshot", "RemainAfterExit=yes", EXEC_START + Command(arguments), "",
     "[Install]", "WantedBy=default.target"]
  }

  function SystemdUnit(arguments: seq<string>): string {
    Text(UnitLines(arguments))
  }

  /** Line breaks are `\n`, with one `\r` before it dropped. */
  function Lines(s: string): seq<string> {
    LinesFrom(s, "")
  }

  function LinesFrom(s: string, line: string): seq<string>
    decreases |s|
  {
    if s == "" then if line == "" then [] else [line]
    else if s[0] == '\n' then [WithoutCr(line)] + LinesFrom(s[1..], "")
    else LinesFrom(s[1..], line + [s[0]])
  }

  function WithoutCr(line: string): string {
    if line != "" && line[|line| - 1] == '\r' then line[..|line| - 1] else line
  }

  function FindCommand(lines: seq<string>): Option<string> {
    if lines == [] then None
    else if EXEC_START <= lines[0] then Some(lines[0][|EXEC_START|..])
    else FindCommand(lines[1..])
  }

  function Restore(values: seq<string>): seq<string> {
    seq(|values|, i requires 0 <= i < |values| => RestoreOne(values[i]))
  }

  function RestoreOne(value: string): string {
    ReplaceAll(ReplaceAll(value, "%%", "%"), "$$", "$")
  }

  function SystemdArguments(content: string): Option<seq<string>> {
    var command := FindCommand(Lines(content));
    if command.None? then None
    else
      var values := ParseStream(command.value);
      if values.None? then None else Some(Restore(values.value))
  }

  // ----- escaping and parsing ---------------------------------------------------------

  lemma ParseEscapedChar(c: char, tail: string)
    ensures ParseString(EscapeChar(c) + tail) == Prepend(c, ParseString(tail))
  {
    var e := EscapeChar(c);
    var text := e + tail;
    if |e| == 1 {
      assert text[0] == c && text[1..] == tail;
    } else if |e| == 2 {
      assert text[0] == '\\' && text[1] == e[1] && text[2..] == tail;
    } else {
      var n := c as int;
      assert text[0] == '\\' && text[1] == 'u';
      var quad := text[2..];
      assert quad[0] == '0' && quad[1] == '0' && quad[2] == HEX[n / 16] && quad[3] == HEX[n % 16];
      HexDigitExact(n / 16);
      HexDigitExact(n % 16);
      assert HexQuad(quad) == Some(n);
      assert text[6..] == tail;
    }
  }

  lemma HexDigitExact(n: nat)
    requires n < 16
    ensures HexDigit(HEX[n]) == Some(n)
  {
  }

  lemma {:induction false} ParseEscaped(s: string, tail: string)
    ensures ParseString(Escape(s) + "\"" + tail) == Some((s, tail))
    decreases |s|
  {
    if s == "" {
      assert Escape(s) + "\"" + tail == "\"" + tail;
      assert ("\"" + tail)[1..] == tail;
    } else {
      var rest := Escape(s[1..]) + "\"" + tail;
      assert Escape(s) + "\"" + tail == EscapeChar(s[0]) + rest;
      ParseEscapedChar(s[0], rest);
      ParseEscaped(s[1..], tail);
      assert [s[0]] + s[1..] == s;
    }
  }

  lemma ParseJsonText(s: string, tail: string)
    ensures ParseStream(JsonText(s) + tail) ==
            if ParseStream(tail).None? then None else Some([s] + ParseStream(tail).value)
  {
    var rest := Escape(s) + "\"" + tail;
    assert JsonText(s) + tail == "\"" + rest;
    assert ("\"" + rest)[1..] == rest;
    ParseEscaped(s, tail);
  }

  // ----- doubling ---------------------------------------------------------------------

  /** Every occurrence of the character twice. */
  function Double(s: string, c: char): string {
    if s == "" then "" else (if s[0] == c then [c, c] else [s[0]]) + Double(s[1..], c)
  }

  lemma {:induction false} ReplaceIsDouble(s: string, c: char)
    ensures ReplaceAll(s, [c], [c, c]) == Double(s, c)
    decreases |s|
  {
    if s != "" {
      assert s[..1] == [s[0]];
      ReplaceIsDouble(s[1..], c);
    }
  }

  /** Replacing pairs from the left undoes the doubling. */
  lemma {:induction false} ReplaceUndoesDouble(s: string, c: char)
    ensures ReplaceAll(Double(s, c), [c, c], [c]) == s
    decreases |s|
  {
    if s != "" {
      var rest := Double(s[1..], c);
      ReplaceUndoesDouble(s[1..], c);
      if s[0] == c {
        assert Double(s, c)[..2] == [c, c] && Double(s, c)[2..] == rest;
      } else {
        assert Double(s, c)[0] == s[0] && Double(s, c)[1..] == rest;
        if rest == "" {
          assert s[1..] == "";
        } else {
          assert Double(s, c)[..2][0] == s[0];
        }
      }
      assert [s[0]] + s[1..] == s;
    }
  }

  lemma {:induction false} DoubleConcat(a: string, b: string, c: char)
    ensures Double(a + b, c) == Double(a, c) + Double(b, c)
    decreases |a|
  {
    if a == "" {
      assert a + b == b;
    } else {
      assert (a + b)[1..] == a[1..] + b;
      DoubleConcat(a[1..], b, c);
    }
  }

  lemma {:induction false} DoublesCommute(s: string, c: char, d: char)
    requires c != d
    ensures Double(Double(s, c), d) == Double(Double(s, d), c)
    decreases |s|
  {
    if s != "" {
      var a := if s[0] == c then [c, c] else [s[0]];
      var b := if s[0] == d then [d, d] else [s[0]];
      DoubleConcat(a, Double(s[1..], c), d);
      DoubleConcat(b, Double(s[1..], d), c);
      DoublesCommute(s[1..], c, d);
      DoubleShort(a, d);
      DoubleShort(b, c);
    }
  }

  lemma DoubleShort(s: string, c: char)
    requires 0 < |s| <= 2
    ensures |s| == 1 ==> Double(s, c) == if s[0] == c then [c, c] else s
    ensures |s| == 2 && s[0] != c && s[1] != c ==> Double(s, c) == s
  {
    assert Double(s[1..], c) ==
           if |s| == 1 then "" else (if s[1] == c then [c, c] else [s[1]]) + Double(s[1..][1..], c);
  }

  lemma {:induction false} DoubleAbsent(s: string, c: char)
    requires c !in s
    ensures Double(s, c) == s
    decreases |s|
  {
    if s != "" {
      assert forall x :: x in s[1..] ==> x in s;
      DoubleAbsent(s[1..], c);
    }
  }

  lemma {:induction false} EscapeConcat(a: string, b: string)
    ensures Escape(a + b) == Escape(a) + Escape(b)
    decreases |a|
  {
    if a == "" {
      assert a + b == b;
    } else {
      assert (a + b)[1..] == a[1..] + b;
      EscapeConcat(a[1..], b);
    }
  }

  lemma EscapeSpecial(x: char, c: char)
    requires c == '%' || c == '$'
    ensures x != c ==> c !in EscapeChar(x)
    ensures EscapeChar(c) == [c]
  {
  }

  /** Doubling `%` or `$` commutes with JSON escaping, which never produces either. */
  lemma {:induction false} DoubleEscape(s: string, c: char)
    requires c == '%' || c == '$'
    ensures Double(Escape(s), c) == Escape(Double(s, c))
    decreases |s|
  {
    if s != "" {
      var x := s[0];
      DoubleConcat(EscapeChar(x), Escape(s[1..]), c);
      DoubleEscape(s[1..], c);
      EscapeSpecial(x, c);
      if x == c {
        DoubleShort([c], c);
        EscapeConcat([c, c], Double(s[1..], c));
        assert Escape([c, c]) == EscapeChar(c) + Escape([c, c][1..]);
        assert [c, c][1..] == [c] && Escape([c]) == EscapeChar(c) + Escape([c][1..]);
        assert Escape([c, c]) == [c, c];
      } else {
        DoubleAbsent(EscapeChar(x), c);
        assert (Double(s, c))[1..] == Double(s[1..], c);
      }
    }
  }

  lemma DoubleJsonText(s: string, c: char)
    requires c == '%' || c == '$'
    ensures Double(JsonText(s), c) == JsonText(Double(s, c))
  {
    DoubleConcat("\"" + Escape(s), "\"", c);
    DoubleConcat("\"", Escape(s), c);
    DoubleShort("\"", c);
    DoubleEscape(s, c);
  }

  /** A rendered argument is the JSON text of the doubled argument. */
  lemma RenderedIsJson(s: string)
    ensures RenderArgument(s) == JsonText(Double(Double(s, '%'), '$'))
  {
    ReplaceIsDouble(JsonText(s), '%');
    DoubleJsonText(s, '%');
    ReplaceIsDouble(JsonText(Double(s, '%')), '$');
    DoubleJsonText(Double(s, '%'), '$');
  }

  lemma RestoreUndoesDoubling(s: string)
    ensures RestoreOne(Double(Double(s, '%'), '$')) == s
  {
    DoublesCommute(s, '%', '$');
    ReplaceUndoesDouble(Double(s, '$'), '%');
    ReplaceUndoesDouble(s, '$');
  }

  // ----- the command line stays one line ----------------------------------------------

  predicate Clean(s: string) {
    '\n' !in s && '\r' !in s
  }

  lemma EscapeCharClean(c: char)
    ensures Clean(EscapeChar(c))
  {
  }

  lemma {:induction false} EscapeClean(s: string)
    ensures Clean(Escape(s))
  {
    if s != "" {
      EscapeClean(s[1..]);
      EscapeCharClean(s[0]);
    }
  }

  lemma {:induction false} CommandClean(arguments: seq<string>)
    ensures Clean(Command(arguments))
  {
    if arguments != [] {
      RenderedIsJson(arguments[0]);
      EscapeClean(Double(Double(arguments[0], '%'), '$'));
      CommandClean(arguments[1..]);
    }
  }

  lemma {:induction false} LineEnds(line: string, read: string, tail: string)
    requires Clean(line) && Clean(read)
    ensures LinesFrom(line + "\n" + tail, read) == [read + line] + Lines(tail)
    decreases |line|
  {
    var s := line + "\n" + tail;
    if line == "" {
      assert s[0] == '\n' && s[1..] == tail && read + line == read;
    } else {
      assert s[0] == line[0] && s[1..] == line[1..] + "\n" + tail;
      assert line[0] in line && forall x :: x in line[1..] ==> x in line;
      LineEnds(line[1..], read + [line[0]], tail);
      assert read + [line[0]] + line[1..] == read + line;
    }
  }

  lemma {:induction false} LinesOfText(lines: seq<string>)
    requires forall i :: 0 <= i < |lines| ==> Clean(lines[i])
    ensures Lines(Text(lines)) == lines
    decreases |lines|
  {
    if lines != [] {
      LineEnds(lines[0], "", Text(lines[1..]));
      assert "" + lines[0] == lines[0];
      LinesOfText(lines[1..]);
    }
  }

  lemma CleanShortLines()
    ensures Clean("[Unit]") && Clean("") && Clean("[Service]") && Clean("[Install]") && Clean(EXEC_START)
  {
  }

  lemma CleanDescription()
    ensures Clean("Description=codexhost login startup")
  {
  }

  lemma CleanType()
    ensures Clean("Type=oneshot")
  {
  }

  lemma CleanSettings()
    ensures Clean("RemainAfterExit=yes") && Clean("WantedBy=default.target")
  {
  }

  lemma ExecStartClean(arguments: seq<string>)
    ensures Clean(EXEC_START + Command(arguments))
  {
    CommandClean(arguments);
    CleanShortLines();
  }

  lemma UnitLinesClean(arguments: seq<string>)
    ensures forall i :: 0 <= i < 10 ==> Clean(UnitLines(arguments)[i])
  {
    CleanShortLines();
    CleanDescription();
    CleanType();
    CleanSettings();
    ExecStartClean(arguments);
  }

  lemma OneExecStart(arguments: seq<string>)
    ensures forall i :: 0 <= i < 10 && i != 6 ==> !(EXEC_START <= UnitLines(arguments)[i])
  {
    var lines := UnitLines(arguments);
    forall i | 0 <= i < 10 && i != 6 ensures !(EXEC_START <= lines[i]) {
      assert EXEC_START[0] == 'E';
    }
  }

  /** Whatever the arguments are, the unit has exactly its ten lines: none of them can break
      the ExecStart line or add a second one. */
  lemma ArgumentsCannotForgeLines(arguments: seq<string>)
    ensures Lines(SystemdUnit(arguments)) == UnitLines(arguments)
    ensures UnitLines(arguments) ==
            ["[Unit]", "Description=codexhost login startup", "", "[Service]", "Type=oneshot", "RemainAfterExit=yes",
             "ExecStart=" + Command(arguments), "", "[Install]", "WantedBy=default.target"]
    ensures forall i :: 0 <= i < 10 && i != 6 ==> !(EXEC_START <= UnitLines(arguments)[i])
  {
    UnitLinesClean(arguments);
    LinesOfText(UnitLines(arguments));
    OneExecStart(arguments);
  }

  lemma {:induction false} CommandParses(arguments: seq<string>)
    ensures ParseStream(Command(arguments)).Some?
    ensures Restore(ParseStream(Command(arguments)).value) == arguments
    decreases |arguments|
  {
    if arguments != [] {
      var a := arguments[0];
      var doubled := Double(Double(a, '%'), '$');
      RenderedIsJson(a);
      RestoreUndoesDoubling(a);
      if |arguments| == 1 {
        ParseJsonText(doubled, "");
        assert JsonText(doubled) + "" == JsonText(doubled);
        assert Restore([doubled]) == arguments;
      } else {
        CommandParses(arguments[1..]);
        var rest := Command(arguments[1..]);
        var tail := " " + rest;
        assert tail[1..] == rest;
        ParseJsonText(doubled, tail);
        assert JsonText(doubled) + " " + rest == JsonText(doubled) + tail;
        var values := ParseStream(rest).value;
        RestoreCons(doubled, values);
        assert [a] + arguments[1..] == arguments;
      }
    }
  }

  /** The command is the arguments in order, one blank between them, each a JSON string of its text with
      every percent and dollar sign doubled. */
  lemma {:induction false} CommandInOrder(arguments: seq<string>, last: string)
    ensures Command(arguments + [last]) ==
            (if arguments == [] then "" else Command(arguments) + " ") + JsonText(Double(Double(last, '%'), '$'))
    decreases |arguments|
  {
    RenderedIsJson(last);
    if arguments != [] {
      var rest := arguments[1..];
      assert (arguments + [last])[1..] == rest + [last];
      CommandInOrder(rest, last);
      var text := JsonText(Double(Double(last, '%'), '$'));
      if rest != [] {
        assert RenderArgument(arguments[0]) + " " + (Command(rest) + " " + text) == Command(arguments) + " " + text;
      }
    }
  }

  lemma RestoreCons(value: string, values: seq<string>)
    ensures Restore([value] + values) == [RestoreOne(value)] + Restore(values)
  {
    var all := [value] + values;
    assert all[0] == value;
    assert forall i :: 0 <= i < |values| ==> all[i + 1] == values[i];
  }

  /** Reading the unit back yields the arguments it was written for, for every list of strings. */
  lemma SystemdRoundTrip(arguments: seq<string>)
    ensures SystemdArguments(SystemdUnit(arguments)) == Some(arguments)
  {
    ArgumentsCannotForgeLines(arguments);
    CommandParses(arguments);
    var lines := UnitLines(arguments);
    FindSkips(lines, 6);
    assert (EXEC_START + Command(arguments))[|EXEC_START|..] == Command(arguments);
  }

  lemma {:induction false} FindSkips(lines: seq<string>, n: nat)
    requires n < |lines| && EXEC_START <= lines[n]
    requires forall i :: 0 <= i < n ==> !(EXEC_START <= lines[i])
    ensures FindCommand(lines) == Some(lines[n][|EXEC_START|..])
    decreases n
  {
    if n > 0 {
      FindSkips(lines[1..], n - 1);
    }
  }
}
