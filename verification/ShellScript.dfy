// The shell command line of src/tray/desktop.rs, against a tokenizer written from the POSIX Shell
// Command Language: the escape character (section 2.2.1), single quotes (2.2.2) and token
// recognition (2.3). Characters with a further meaning of their own end the modelled fragment.
module ShellScript {
  import opened Common
  import opened Text

  function ShellQuote(value: string): string {
    "'" + Replace(value, '\'', "'\\''") + "'"
  }

  function JoinQuoted(parts: seq<string>): string {
    if parts == [] then ""
    else if |parts| == 1 then ShellQuote(parts[0])
    else ShellQuote(parts[0]) + " " + JoinQuoted(parts[1..])
  }

  const CLOSE_MESSAGE := "Press Enter to close..."

  /** With the close message: `; echo; printf 'Press Enter to close...'; read _` */
  function KeepOpenSuffix(message: string): string {
    "; echo" + ("; printf" + (" " + (("'" + message + "'") + ("; read" + " _"))))
  }

  function Script(parts: seq<string>, keepOpen: bool): string {
    if keepOpen then JoinQuoted(parts) + KeepOpenSuffix(CLOSE_MESSAGE) else JoinQuoted(parts)
  }

  // ---------- The tokenizer ----------

  datatype Token = Word(text: string) | Semicolon | Newline

  predicate IsBlank(c: char) {
    c == ' ' || c == '\t'
  }

  /** Unquoted characters that stand for themselves in a word. */
  predicate IsPlain(c: char) {
    'a' <= c <= 'z' || 'A' <= c <= 'Z' || '0' <= c <= '9' || c == '_' || c == '/' || c == '.' || c == '-' || c == ':'
      || c == ','
  }

  function Flushed(word: Option<string>): seq<Token> {
    if word.None? then [] else [Word(word.value)]
  }

  function Before(tokens: seq<Token>, rest: Option<seq<Token>>): Option<seq<Token>> {
    if rest.None? then None else Some(tokens + rest.value)
  }

  /** Reads unquoted text; `word` is the word begun, if any. */
  function Scan(s: string, word: Option<string>): Option<seq<Token>>
    decreases |s|
  {
    var begun := if word.None? then "" else word.value;
    if s == "" then Some(Flushed(word))
    else if s[0] == '\'' then ScanQuoted(s[1..], begun)
    else if s[0] == '\\' then
      if |s| == 1 then None
      else if s[1] == '\n' then Scan(s[2..], word)
      else Scan(s[2..], Some(begun + [s[1]]))
    else if IsBlank(s[0]) then Before(Flushed(word), Scan(s[1..], None))
    else if s[0] == ';' then Before(Flushed(word) + [Semicolon], Scan(s[1..], None))
    else if s[0] == '\n' then Before(Flushed(word) + [Newline], Scan(s[1..], None))
    else if IsPlain(s[0]) then Scan(s[1..], Some(begun + [s[0]]))
    else None
  }

  /** Reads single-quoted text: every character stands for itself up to the closing quote. */
  function ScanQuoted(s: string, word: string): Option<seq<Token>>
    decreases |s|
  {
    if s == "" then None
    else if s[0] == '\'' then Scan(s[1..], Some(word))
    else ScanQuoted(s[1..], word + [s[0]])
  }

  function Tokens(script: string): Option<seq<Token>> {
    Scan(script, None)
  }

  function Words(parts: seq<string>): seq<Token> {
    if parts == [] then [] else [Word(parts[0])] + Words(parts[1..])
  }

  // ---------- Single steps of the tokenizer ----------

  lemma AtCharacter(c: char, rest: string, word: string)
    requires c != '\''
    ensures ScanQuoted([c] + rest, word) == ScanQuoted(rest, word + [c])
  {
    assert ([c] + rest)[1..] == rest;
  }

  lemma AtClosingQuote(rest: string, word: string)
    ensures ScanQuoted("'" + rest, word) == Scan(rest, Some(word))
  {
    assert ("'" + rest)[1..] == rest;
  }

  lemma AtOpeningQuote(rest: string, word: Option<string>)
    ensures Scan("'" + rest, word) == ScanQuoted(rest, if word.None? then "" else word.value)
  {
    assert ("'" + rest)[1..] == rest;
  }

  lemma AtEscapedQuote(rest: string, word: string)
    ensures Scan("\\'" + rest, Some(word)) == Scan(rest, Some(word + "'"))
  {
    assert ("\\'" + rest)[2..] == rest;
  }

  lemma AtBlank(rest: string, word: Option<string>)
    ensures Scan(" " + rest, word) == Before(Flushed(word), Scan(rest, None))
  {
    assert (" " + rest)[1..] == rest;
  }

  lemma AtSemicolon(rest: string, word: Option<string>)
    ensures Scan(";" + rest, word) == Before(Flushed(word) + [Semicolon], Scan(rest, None))
  {
    assert (";" + rest)[1..] == rest;
  }

  lemma BeforeTwice(a: seq<Token>, b: seq<Token>, rest: Option<seq<Token>>)
    ensures Before(a, Before(b, rest)) == Before(a + b, rest)
  {
    if rest.Some? {
      assert a + (b + rest.value) == (a + b) + rest.value;
    }
  }

  lemma NothingBefore(rest: Option<seq<Token>>)
    ensures Before([], rest) == rest
  {
    if rest.Some? {
      assert [] + rest.value == rest.value;
    }
  }

  // ---------- Round trip ----------

  /** The escaped quote inside quoted text closes, adds one quote character, and opens again. */
  lemma QuoteInsideIsRead(rest: string, word: string)
    ensures ScanQuoted("'\\''" + rest, word) == ScanQuoted(rest, word + "'")
  {
    assert "'\\''" + rest == "'" + ("\\'" + ("'" + rest));
    AtClosingQuote("\\'" + ("'" + rest), word);
    AtEscapedQuote("'" + rest, word);
    AtOpeningQuote(rest, Some(word + "'"));
  }

  /** Inside the opening quote, the escaped value and its closing quote add exactly the value to the word. */
  lemma {:induction false} QuotedValueIsRead(value: string, rest: string, word: string)
    ensures ScanQuoted(Replace(value, '\'', "'\\''") + ("'" + rest), word) == Scan(rest, Some(word + value))
    decreases |value|
  {
    if value == "" {
      assert "" + ("'" + rest) == "'" + rest && word + value == word;
      AtClosingQuote(rest, word);
    } else {
      var tail := Replace(value[1..], '\'', "'\\''") + ("'" + rest);
      var longer := word + [value[0]];
      QuotedValueIsRead(value[1..], rest, longer);
      assert longer + value[1..] == word + value;
      var first := if value[0] == '\'' then "'\\''" else [value[0]];
      assert Replace(value, '\'', "'\\''") + ("'" + rest) == first + tail;
      if value[0] == '\'' {
        QuoteInsideIsRead(tail, word);
      } else {
        AtCharacter(value[0], tail, word);
      }
    }
  }

  lemma QuotedPartIsOneWord(value: string, rest: string)
    ensures Scan(ShellQuote(value) + rest, None) == Scan(rest, Some(value))
  {
    var inner := Replace(value, '\'', "'\\''") + ("'" + rest);
    assert ShellQuote(value) + rest == "'" + inner;
    AtOpeningQuote(inner, None);
    QuotedValueIsRead(value, rest, "");
    assert "" + value == value;
  }

  /** An operator or the end of the script ends the word before it. */
  lemma AfterWord(rest: string, word: string)
    requires rest == "" || rest[0] == ';'
    ensures Scan(rest, Some(word)) == Before([Word(word)], Scan(rest, None))
  {
    assert [Word(word)] + [] == [Word(word)];
    if rest != "" {
      assert rest == ";" + rest[1..];
      AtSemicolon(rest[1..], Some(word));
      AtSemicolon(rest[1..], None);
      BeforeTwice([Word(word)], [Semicolon], Scan(rest[1..], None));
      assert [] + [Semicolon] == [Semicolon];
    }
  }

  /** Reading the joined parts yields their words. */
  lemma {:induction false} JoinedPartsAreRead(parts: seq<string>, rest: string)
    requires rest == "" || rest[0] == ';'
    ensures Scan(JoinQuoted(parts) + rest, None) == Before(Words(parts), Scan(rest, None))
    decreases |parts|
  {
    if parts == [] {
      assert JoinQuoted(parts) + rest == rest;
      NothingBefore(Scan(rest, None));
    } else if |parts| == 1 {
      QuotedPartIsOneWord(parts[0], rest);
      AfterWord(rest, parts[0]);
      assert Words(parts) == [Word(parts[0])];
    } else {
      JoinedPartsAreRead(parts[1..], rest);
      OneMorePartIsRead(parts[0], parts[1..], rest);
      assert parts == [parts[0]] + parts[1..];
    }
  }

  lemma OneMorePartIsRead(part: string, parts: seq<string>, rest: string)
    requires parts != [] && Scan(JoinQuoted(parts) + rest, None) == Before(Words(parts), Scan(rest, None))
    ensures Scan(JoinQuoted([part] + parts) + rest, None) == Before(Words([part] + parts), Scan(rest, None))
  {
    var joined := JoinQuoted(parts);
    JoinUnfolds(part, parts);
    FirstPartIsRead(part, joined + rest);
    BeforeTwice([Word(part)], Words(parts), Scan(rest, None));
    assert ShellQuote(part) + (" " + joined) + rest == ShellQuote(part) + (" " + (joined + rest));
  }

  lemma JoinUnfolds(part: string, parts: seq<string>)
    requires parts != []
    ensures JoinQuoted([part] + parts) == ShellQuote(part) + (" " + JoinQuoted(parts))
    ensures Words([part] + parts) == [Word(part)] + Words(parts)
  {
    assert ([part] + parts)[1..] == parts;
  }

  lemma FirstPartIsRead(part: string, following: string)
    ensures Scan(ShellQuote(part) + (" " + following), None) == Before([Word(part)], Scan(following, None))
  {
    QuotedPartIsOneWord(part, " " + following);
    AtBlank(following, Some(part));
  }

  /** The shell reads the script back as exactly the given words, whatever characters they contain. */
  lemma ScriptRoundTrip(parts: seq<string>)
    ensures Tokens(Script(parts, false)) == Some(Words(parts))
  {
    JoinedPartsAreRead(parts, "");
    assert JoinQuoted(parts) + "" == JoinQuoted(parts);
    assert Words(parts) + [] == Words(parts);
  }

  predicate AllPlain(text: string) {
    forall i :: 0 <= i < |text| ==> IsPlain(text[i])
  }

  lemma {:induction false} PlainTextIsRead(text: string, rest: string, begun: string)
    requires text != "" && AllPlain(text)
    ensures Scan(text + rest, if begun == "" then None else Some(begun)) == Scan(rest, Some(begun + text))
    decreases |text|
  {
    var longer := begun + [text[0]];
    assert (text + rest)[1..] == text[1..] + rest;
    if |text| == 1 {
      assert text[1..] + rest == rest && text == [text[0]];
    } else {
      assert longer + text[1..] == begun + text;
      PlainTextIsRead(text[1..], rest, longer);
    }
  }

  /** A semicolon, a blank and a plain name end one command and begin the next. */
  lemma CommandIsRead(separatedName: string, name: string, rest: string, word: Option<string>)
    requires name != "" && AllPlain(name) && separatedName == ";" + (" " + name)
    ensures Scan(separatedName + rest, word) == Before(Flushed(word) + [Semicolon], Scan(rest, Some(name)))
  {
    CommandSplits(separatedName, name, rest);
    var following := " " + (name + rest);
    AtSemicolon(following, word);
    PlainWordIsRead(name, rest);
  }

  lemma CommandSplits(separatedName: string, name: string, rest: string)
    requires separatedName == ";" + (" " + name)
    ensures separatedName + rest == ";" + (" " + (name + rest))
  {
  }

  lemma PlainWordIsRead(name: string, rest: string)
    requires name != "" && AllPlain(name)
    ensures Scan(" " + (name + rest), None) == Scan(rest, Some(name))
  {
    AtBlank(name + rest, None);
    NothingBefore(Scan(name + rest, None));
    PlainTextIsRead(name, rest, "");
    assert "" + name == name;
  }

  lemma {:induction false} NothingToReplace(s: string, c: char, with: string)
    requires c !in s
    ensures Replace(s, c, with) == s
  {
    if s != "" {
      assert forall x :: x in s[1..] ==> x in s;
      NothingToReplace(s[1..], c, with);
    }
  }

  lemma LastCommandIsRead(message: string)
    ensures Scan("; read" + " _", Some(message)) == Some([Word(message), Semicolon, Word("read"), Word("_")])
  {
    CommandIsRead("; read", "read", " _", Some(message));
    assert " _" == " " + "_" && "_" == "_" + "" && "" + "_" == "_";
    AtBlank("_", Some("read"));
    PlainTextIsRead("_", "", "");
    assert Scan("_", None) == Some([Word("_")]);
    BeforeTwice([Word(message)] + [Semicolon], [Word("read")], Some([Word("_")]));
    assert [Word(message)] + [Semicolon] + [Word("read")] + [Word("_")] ==
      [Word(message), Semicolon, Word("read"), Word("_")];
  }

  /** The words and operators of the suffix. */
  function ClosingTokens(message: string): seq<Token> {
    [Semicolon] + ([Word("echo"), Semicolon] + ([Word("printf")] + [Word(message), Semicolon, Word("read"), Word("_")]))
  }

  /** The suffix that keeps the terminal open is three commands of its own. */
  lemma KeepOpenIsRead(message: string)
    requires '\'' !in message
    ensures Scan(KeepOpenSuffix(message), None) == Some(ClosingTokens(message))
  {
    var third := "; read" + " _";
    var quoted := "'" + message + "'";
    var argument := " " + (quoted + third);
    var second := "; printf" + argument;
    CommandIsRead("; echo", "echo", second, None);
    CommandIsRead("; printf", "printf", argument, Some("echo"));
    AtBlank(quoted + third, Some("printf"));
    NothingToReplace(message, '\'', "'\\''");
    QuotedPartIsOneWord(message, third);
    LastCommandIsRead(message);
    assert [Word("echo")] + [Semicolon] == [Word("echo"), Semicolon];
    assert [] + [Semicolon] == [Semicolon];
  }

  lemma MessageHasNoQuote()
    ensures '\'' !in CLOSE_MESSAGE
  {
  }

  /** With the terminal kept open, the given words are still exactly the first command. */
  lemma KeepOpenRoundTrip(parts: seq<string>)
    ensures Tokens(Script(parts, true)) == Some(Words(parts) + ClosingTokens(CLOSE_MESSAGE))
  {
    MessageHasNoQuote();
    JoinedPartsAreRead(parts, KeepOpenSuffix(CLOSE_MESSAGE));
    KeepOpenIsRead(CLOSE_MESSAGE);
  }
}
