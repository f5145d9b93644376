// Desktop entry quoting in src/tray/desktop.rs, against independent decoders written from the
// freedesktop Desktop Entry Specification: the string escapes of "Possible value types", then the
// quoting rules and the "%%" rule of "The Exec key".
module DesktopEntry {
  import opened Common
  import opened Text

  predicate HasControls(value: string) {
    exists i :: 0 <= i < |value| && IsAsciiControl(value[i])
  }

  /** The chain of whole-string replacements that quotes for the Exec key. */
  function ExecLayer(value: string): string {
    var backslashes := Replace(value, '\\', "\\\\");
    var quotes := Replace(backslashes, '"', "\\\"");
    var backticks := Replace(quotes, '`', "\\`");
    var dollars := Replace(backticks, '$', "\\$");
    Replace(dollars, '%', "%%")
  }

  /** The replacement that escapes for the string value type. */
  function StringLayer(text: string): string {
    Replace(text, '\\', "\\\\")
  }

  function DesktopEntryQuote(value: string): Result<string, ()> {
    if HasControls(value) then Err(()) else Ok("\"" + StringLayer(ExecLayer(value)) + "\"")
  }

  function DesktopStringEscape(value: string): Result<string, ()> {
    if HasControls(value) then Err(()) else Ok(StringLayer(value))
  }

  // ---------- The specification's decoders ----------

  function Prepend(c: char, rest: Option<string>): Option<string> {
    if rest.None? then None else Some([c] + rest.value)
  }

  /** The escape sequences of the string value type; any other is malformed. */
  function UnescapeString(s: string): Option<string> {
    if s == "" then Some("")
    else if s[0] != '\\' then Prepend(s[0], UnescapeString(s[1..]))
    else if |s| == 1 then None
    else match s[1]
      case 's' => Prepend(' ', UnescapeString(s[2..]))
      case 'n' => Prepend('\n', UnescapeString(s[2..]))
      case 't' => Prepend('\t', UnescapeString(s[2..]))
      case 'r' => Prepend('\r', UnescapeString(s[2..]))
      case '\\' => Prepend('\\', UnescapeString(s[2..]))
      case _ => None
  }

  predicate MustBeQuoted(c: char) {
    c == '"' || c == '`' || c == '$' || c == '\\'
  }

  /** The inside of a quoted argument, up to the closing quote, which must end the text. */
  function UnquoteRest(s: string): Option<string> {
    if s == "" then None
    else if s[0] == '"' then if |s| == 1 then Some("") else None
    else if s[0] == '\\' then
      if |s| >= 2 && MustBeQuoted(s[1]) then Prepend(s[1], UnquoteRest(s[2..])) else None
    else if MustBeQuoted(s[0]) then None
    else Prepend(s[0], UnquoteRest(s[1..]))
  }

  function Unquote(s: string): Option<string> {
    if s != "" && s[0] == '"' then UnquoteRest(s[1..]) else None
  }

  /** Field codes after unquoting: a doubled percent sign is one, any other code is not a literal argument. */
  function ExpandPercents(s: string): Option<string> {
    if s == "" then Some("")
    else if s[0] != '%' then Prepend(s[0], ExpandPercents(s[1..]))
    else if |s| >= 2 && s[1] == '%' then Prepend('%', ExpandPercents(s[2..]))
    else None
  }

  /** The argument a quoted Exec value stands for. */
  function DecodeExecArgument(text: string): Option<string> {
    match UnescapeString(text)
    case None => None
    case Some(exec) =>
      match Unquote(exec)
      case None => None
      case Some(argument) => ExpandPercents(argument)
  }

  // ---------- The chain of replacements as one encoding per character ----------

  lemma {:induction false} ReplaceAdds(a: string, b: string, c: char, with: string)
    ensures Replace(a + b, c, with) == Replace(a, c, with) + Replace(b, c, with)
  {
    if a == "" {
      assert a + b == b;
    } else {
      assert (a + b)[1..] == a[1..] + b;
      ReplaceAdds(a[1..], b, c, with);
    }
  }

  lemma ExecLayerAdds(a: string, b: string)
    ensures ExecLayer(a + b) == ExecLayer(a) + ExecLayer(b)
  {
    var a1, b1 := Replace(a, '\\', "\\\\"), Replace(b, '\\', "\\\\");
    ReplaceAdds(a, b, '\\', "\\\\");
    var a2, b2 := Replace(a1, '"', "\\\""), Replace(b1, '"', "\\\"");
    ReplaceAdds(a1, b1, '"', "\\\"");
    var a3, b3 := Replace(a2, '`', "\\`"), Replace(b2, '`', "\\`");
    ReplaceAdds(a2, b2, '`', "\\`");
    var a4, b4 := Replace(a3, '$', "\\$"), Replace(b3, '$', "\\$");
    ReplaceAdds(a3, b3, '$', "\\$");
    ReplaceAdds(a4, b4, '%', "%%");
  }

  /** What the whole chain makes of one character. */
  function EncodeChar(c: char): string {
    if MustBeQuoted(c) then ['\\', c] else if c == '%' then "%%" else [c]
  }

  function Encode(s: string): string {
    if s == "" then "" else EncodeChar(s[0]) + Encode(s[1..])
  }

  lemma ReplaceOne(x: char, c: char, with: string)
    ensures Replace([x], c, with) == if x == c then with else [x]
  {
    assert [x][1..] == "";
  }

  lemma ReplaceTwo(x: char, y: char, c: char, with: string)
    requires x != c && y != c
    ensures Replace([x, y], c, with) == [x, y]
  {
    assert [x, y][1..] == [y];
    ReplaceOne(y, c, with);
  }

  lemma ExecLayerOfChar(c: char)
    ensures ExecLayer([c]) == EncodeChar(c)
  {
    ReplaceOne(c, '\\', "\\\\");
    ReplaceOne(c, '"', "\\\"");
    ReplaceOne(c, '`', "\\`");
    ReplaceOne(c, '$', "\\$");
    ReplaceOne(c, '%', "%%");
    if MustBeQuoted(c) {
      if c == '\\' {
        ReplaceTwo('\\', c, '"', "\\\"");
      }
      if c == '\\' || c == '"' {
        ReplaceTwo('\\', c, '`', "\\`");
      }
      if c != '$' {
        ReplaceTwo('\\', c, '$', "\\$");
      }
      ReplaceTwo('\\', c, '%', "%%");
    }
  }

  /** The five whole-string replacements never act on each other's output: they encode each character once. */
  lemma {:induction false} ExecLayerIsPerCharacter(s: string)
    ensures ExecLayer(s) == Encode(s)
  {
    if s != "" {
      assert s == [s[0]] + s[1..];
      ExecLayerAdds([s[0]], s[1..]);
      ExecLayerOfChar(s[0]);
      ExecLayerIsPerCharacter(s[1..]);
    }
  }

  // ---------- Decoding ----------

  lemma {:induction false} UnescapeUndoesStringLayer(s: string)
    ensures UnescapeString(StringLayer(s)) == Some(s)
  {
    if s != "" {
      assert [s[0]] + s[1..] == s;
      UnescapeUndoesStringLayer(s[1..]);
      var rest := StringLayer(s[1..]);
      if s[0] == '\\' {
        assert StringLayer(s)[2..] == rest;
      } else {
        assert StringLayer(s)[1..] == rest;
      }
    }
  }

  function DoublePercents(s: string): string {
    Replace(s, '%', "%%")
  }

  /** Unquoting one encoded character gives the character, or two percent signs. */
  lemma UnquoteOne(c: char, rest: string)
    ensures UnquoteRest(EncodeChar(c) + rest) ==
            if c == '%' then Prepend('%', Prepend('%', UnquoteRest(rest))) else Prepend(c, UnquoteRest(rest))
  {
    var text := EncodeChar(c) + rest;
    if MustBeQuoted(c) {
      assert text[2..] == rest;
    } else if c == '%' {
      assert text[1..] == "%" + rest && text[1..][1..] == rest;
      assert UnquoteRest(text[1..]) == Prepend('%', UnquoteRest(rest));
    } else {
      assert text[1..] == rest;
    }
  }

  lemma {:induction false} UnquoteUndoesEncode(s: string)
    ensures UnquoteRest(Encode(s) + "\"") == Some(DoublePercents(s))
  {
    if s == "" {
      assert Encode(s) + "\"" == "\"";
    } else {
      UnquoteUndoesEncode(s[1..]);
      UnquoteOne(s[0], Encode(s[1..]) + "\"");
      assert Encode(s) + "\"" == EncodeChar(s[0]) + (Encode(s[1..]) + "\"");
      var rest := DoublePercents(s[1..]);
      assert ['%'] + (['%'] + rest) == "%%" + rest;
    }
  }

  lemma {:induction false} ExpandUndoesDoubling(s: string)
    ensures ExpandPercents(DoublePercents(s)) == Some(s)
  {
    if s != "" {
      assert [s[0]] + s[1..] == s;
      ExpandUndoesDoubling(s[1..]);
      var rest := DoublePercents(s[1..]);
      if s[0] == '%' {
        assert DoublePercents(s)[2..] == rest;
      } else {
        assert DoublePercents(s)[1..] == rest;
      }
    }
  }

  /** A value is quoted exactly when it has no control characters, and then decodes to itself. */
  lemma QuoteRoundTrip(value: string)
    ensures DesktopEntryQuote(value).Ok? <==> !HasControls(value)
    ensures DesktopEntryQuote(value).Ok? ==> DecodeExecArgument(DesktopEntryQuote(value).value) == Some(value)
  {
    if !HasControls(value) {
      var exec := ExecLayer(value);
      ExecLayerIsPerCharacter(value);
      UnescapeOfQuoted(exec);
      var quoted := "\"" + exec + "\"";
      assert quoted[1..] == Encode(value) + "\"";
      UnquoteUndoesEncode(value);
      ExpandUndoesDoubling(value);
    }
  }

  /** The enclosing quotes are not touched by the string escapes. */
  lemma UnescapeOfQuoted(exec: string)
    ensures UnescapeString("\"" + StringLayer(exec) + "\"") == Some("\"" + exec + "\"")
  {
    var quoted := "\"" + exec + "\"";
    UnescapeUndoesStringLayer(quoted);
    ReplaceAdds("\"" + exec, "\"", '\\', "\\\\");
    ReplaceAdds("\"", exec, '\\', "\\\\");
    ReplaceOne('"', '\\', "\\\\");
  }

  lemma EscapeRoundTrip(value: string)
    ensures DesktopStringEscape(value).Ok? <==> !HasControls(value)
    ensures DesktopStringEscape(value).Ok? ==> UnescapeString(DesktopStringEscape(value).value) == Some(value)
  {
    UnescapeUndoesStringLayer(value);
  }

  /** Both forms refuse exactly the values with one of the 33 ASCII control characters in them. */
  lemma ControlsAreRefused(value: string)
    ensures DesktopEntryQuote(value).Err? <==> exists c :: c in value && (c as int < 32 || c as int == 127)
    ensures DesktopStringEscape(value).Err? <==> exists c :: c in value && (c as int < 32 || c as int == 127)
    ensures '\n' in value || '\r' in value ==> DesktopEntryQuote(value).Err? && DesktopStringEscape(value).Err?
  {
    forall c | c in value && (c as int < 32 || c as int == 127)
      ensures HasControls(value)
    {
      var i :| 0 <= i < |value| && value[i] == c;
      assert IsAsciiControl(value[i]);
    }
    if HasControls(value) {
      var i :| 0 <= i < |value| && IsAsciiControl(value[i]);
      assert value[i] in value;
    }
  }

  /** Accepted values stay on one line of the entry: neither form has control characters in it. */
  lemma QuotedValuesAreOneLine(value: string)
    ensures DesktopEntryQuote(value).Ok? ==> IsOneLine(DesktopEntryQuote(value).value)
    ensures DesktopStringEscape(value).Ok? ==> IsOneLine(DesktopStringEscape(value).value)
  {
    if !HasControls(value) {
      ExecLayerIsPerCharacter(value);
      EncodeAddsNoControls(value);
      EscapeAddsNoControls(Encode(value));
      EscapeAddsNoControls(value);
    }
  }

  predicate IsOneLine(text: string) {
    !HasControls(text) && '\n' !in text && '\r' !in text
  }

  lemma {:induction false} EncodeAddsNoControls(s: string)
    requires !HasControls(s)
    ensures !HasControls(Encode(s))
  {
    if s != "" {
      assert forall i :: 0 <= i < |s[1..]| ==> s[1..][i] == s[i + 1];
      EncodeAddsNoControls(s[1..]);
      assert !IsAsciiControl(s[0]);
    }
  }

  lemma {:induction false} EscapeAddsNoControls(s: string)
    requires !HasControls(s)
    ensures !HasControls(StringLayer(s))
  {
    if s != "" {
      assert forall i :: 0 <= i < |s[1..]| ==> s[1..][i] == s[i + 1];
      EscapeAddsNoControls(s[1..]);
      assert !IsAsciiControl(s[0]);
    }
  }
}
