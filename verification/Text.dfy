// The string operations of the Rust standard library that the models rely on.
module Text {
  import opened Common

  /** `char::is_whitespace`: the Unicode White_Space property. */
  predicate IsWhitespace(c: char) {
    || '\t' <= c <= '\r'
    || c == ' ' || c == '\U{85}' || c == '\U{A0}' || c == '\U{1680}'
    || '\U{2000}' <= c <= '\U{200A}'
    || c == '\U{2028}' || c == '\U{2029}' || c == '\U{202F}' || c == '\U{205F}' || c == '\U{3000}'
  }

  predicate IsAsciiWhitespace(c: char) {
    c == ' ' || c == '\t' || c == '\n' || c == '\U{C}' || c == '\r'
  }

  predicate IsAsciiControl(c: char) {
    c < ' ' || c == '\U{7F}'
  }

  function TrimStart(s: string): string {
    if s != "" && IsWhitespace(s[0]) then TrimStart(s[1..]) else s
  }

  function TrimEnd(s: string): string {
    if s != "" && IsWhitespace(s[|s| - 1]) then TrimEnd(s[..|s| - 1]) else s
  }

  function Trim(s: string): string {
    TrimEnd(TrimStart(s))
  }

  /** `trim().is_empty()`. */
  predicate Blank(s: string) {
    forall i :: 0 <= i < |s| ==> IsWhitespace(s[i])
  }

  /** `replace` of one character by a string, everywhere. */
  function Replace(s: string, c: char, with: string): string {
    if s == "" then "" else (if s[0] == c then with else [s[0]]) + Replace(s[1..], c, with)
  }

  /** The decimal form `format!("{}")` gives a number. */
  function Decimal(n: nat): (digits: string)
    ensures |digits| > 0
    ensures forall i :: 0 <= i < |digits| ==> '0' <= digits[i] <= '9'
  {
    (if n < 10 then "" else Decimal(n / 10)) + [(n % 10 + '0' as int) as char]
  }

  predicate AllDigits(s: string) {
    forall i :: 0 <= i < |s| ==> '0' <= s[i] <= '9'
  }

  function DecimalValue(digits: string): nat
    requires AllDigits(digits)
  {
    if |digits| == 0 then 0
    else 10 * DecimalValue(digits[..|digits| - 1]) + (digits[|digits| - 1] as int - '0' as int)
  }

  lemma AppendDigit(digits: string, d: nat)
    requires AllDigits(digits) && d < 10
    ensures AllDigits(digits + [(d + '0' as int) as char])
    ensures DecimalValue(digits + [(d + '0' as int) as char]) == 10 * DecimalValue(digits) + d
  {
    var longer := digits + [(d + '0' as int) as char];
    assert longer[..|longer| - 1] == digits;
  }

  lemma {:induction false} DecimalRoundTrip(n: nat)
    ensures DecimalValue(Decimal(n)) == n
  {
    if n >= 10 {
      DecimalRoundTrip(n / 10);
      AppendDigit(Decimal(n / 10), n % 10);
    } else {
      AppendDigit("", n);
    }
  }

  lemma SplitsAtLength(a: string, b: string, a': string, b': string)
    requires a + b == a' + b' && |a| == |a'|
    ensures a == a' && b == b'
  {
    assert a == (a + b)[..|a|] && a' == (a' + b')[..|a'|];
    assert b == (a + b)[|a|..] && b' == (a' + b')[|a'|..];
  }

  /** A separator that occurs in neither left part splits a string in one way only. */
  lemma SplitsOneWay(a: string, b: string, a': string, b': string, separator: char)
    requires a + [separator] + b == a' + [separator] + b'
    requires separator !in a && separator !in a'
    ensures a == a' && b == b'
  {
    var s := a + [separator] + b;
    assert s[|a|] == separator && s[|a'|] == separator;
    assert forall i :: 0 <= i < |a| ==> s[i] == a[i] && a[i] in a;
    assert forall i :: 0 <= i < |a'| ==> s[i] == a'[i] && a'[i] in a';
    assert |a| == |a'|;
    assert a == s[..|a|] && a' == s[..|a'|];
    assert b == s[|a| + 1..] && b' == s[|a'| + 1..];
  }

  /** The position of the first line feed, or the length if there is none. */
  function FirstNewline(s: string): (k: nat)
    ensures k <= |s|
  {
    if s == "" || s[0] == '\n' then 0 else FirstNewline(s[1..]) + 1
  }

  function WithoutCarriageReturn(line: string): string {
    if line != "" && line[|line| - 1] == '\r' then line[..|line| - 1] else line
  }

  /** `str::lines`: a final line feed ends the last line, and only a terminated line loses a carriage return. */
  function Lines(s: string): seq<string>
    decreases |s|
  {
    if s == "" then []
    else
      var k := FirstNewline(s);
      if k == |s| then [s] else [WithoutCarriageReturn(s[..k])] + Lines(s[k + 1..])
  }

  /** The first line feed is where it says, and there is none before it. */
  lemma {:induction false} NoNewlineBefore(s: string)
    ensures '\n' !in s[..FirstNewline(s)]
    ensures FirstNewline(s) < |s| ==> s[FirstNewline(s)] == '\n'
  {
    if s != "" && s[0] != '\n' {
      NoNewlineBefore(s[1..]);
      assert s[..FirstNewline(s)] == [s[0]] + s[1..][..FirstNewline(s[1..])];
    }
  }

  lemma {:induction false} FirstNewlineAfter(line: string, rest: string)
    requires '\n' !in line
    ensures FirstNewline(line + ("\n" + rest)) == |line|
  {
    if line != "" {
      assert (line + ("\n" + rest))[1..] == line[1..] + ("\n" + rest);
      FirstNewlineAfter(line[1..], rest);
    }
  }

  lemma LinesOfFirst(line: string, rest: string)
    requires '\n' !in line
    ensures Lines(line + ("\n" + rest)) == [WithoutCarriageReturn(line)] + Lines(rest)
  {
    var s := line + ("\n" + rest);
    FirstNewlineAfter(line, rest);
    assert s[..|line|] == line && s[|line| + 1..] == rest;
  }

  /** Each line followed by a line feed. */
  function JoinLines(lines: seq<string>): string {
    if lines == [] then "" else lines[0] + ("\n" + JoinLines(lines[1..]))
  }

  /** Lines written one by one are read back. */
  lemma {:induction false} JoinedLinesAreRead(lines: seq<string>)
    requires forall line :: line in lines ==> '\n' !in line && (line != "" ==> line[|line| - 1] != '\r')
    ensures Lines(JoinLines(lines)) == lines
  {
    if lines != [] {
      var line, rest := lines[0], lines[1..];
      assert line in lines && forall other :: other in rest ==> other in lines;
      JoinedLinesAreRead(rest);
      assert Lines(JoinLines(rest)) == rest;
      LinesOfFirst(line, JoinLines(rest));
      assert Lines(JoinLines(lines)) == [WithoutCarriageReturn(line)] + rest;
    }
  }

  lemma {:induction false} LinesSplitRight(a: string, b: string)
    ensures Lines(a + ("\n" + b)) == Lines(a + ("\n" + "")) + Lines(b)
    decreases |a|
  {
    NoNewlineBefore(a);
    var k := FirstNewline(a);
    if k == |a| {
      assert a[..k] == a;
      LinesOfFirst(a, b);
      LinesOfFirst(a, "");
    } else {
      var line, rest := a[..k], a[k + 1..];
      assert a == line + ("\n" + rest);
      LinesSplitRight(rest, b);
      LinesSplitAfterFirst(line, rest, b);
    }
  }

  lemma LinesSplitAfterFirst(line: string, rest: string, b: string)
    requires '\n' !in line && Lines(rest + ("\n" + b)) == Lines(rest + ("\n" + "")) + Lines(b)
    ensures var a := line + ("\n" + rest);
            Lines(a + ("\n" + b)) == Lines(a + ("\n" + "")) + Lines(b)
  {
    Regroup(line, rest, b);
    Regroup(line, rest, "");
    LinesOfFirst(line, rest + ("\n" + b));
    LinesOfFirst(line, rest + ("\n" + ""));
    Reassociate(WithoutCarriageReturn(line), Lines(rest + ("\n" + "")), Lines(b));
  }

  lemma Regroup(line: string, rest: string, b: string)
    ensures line + ("\n" + rest) + ("\n" + b) == line + ("\n" + (rest + ("\n" + b)))
  {
  }

  lemma Reassociate<T>(head: T, middle: seq<T>, tail: seq<T>)
    ensures [head] + (middle + tail) == ([head] + middle) + tail
  {
  }

  /** Lines split independently on either side of a line feed. */
  lemma LinesSplitAtNewline(a: string, b: string)
    ensures Lines(a + "\n" + b) == Lines(a + "\n") + Lines(b)
  {
    LinesSplitRight(a, b);
    assert a + "\n" + b == a + ("\n" + b) && a + "\n" == a + ("\n" + "");
  }
}
