// Recognition of autostart entries left by earlier versions, in src/tray/desktop.rs: a single pass
// over the lines with three flags, and the bounded tokenizer of Exec values it relies on.
module LegacyAutostart {
  import opened Common
  import opened Text

  // ---------- The tokenizer of Exec values ----------

  function SkipBlanks(s: string): string {
    if s != "" && IsAsciiWhitespace(s[0]) then SkipBlanks(s[1..]) else s
  }

  /** One token: its text and what follows it, or nothing when it is malformed. */
  datatype TokenResult = Malformed | Token(text: string, rest: string)

  function Extend(c: char, r: TokenResult): TokenResult {
    if r.Malformed? then r else Token([c] + r.text, r.rest)
  }

  /** The token that begins here, up to its closing quote or the next blank. */
  function ReadToken(s: string, quoted: bool): (r: TokenResult)
    ensures r.Token? ==> |r.rest| <= |s| && (s != "" ==> |r.rest| < |s|)
  {
    if s == "" then (if quoted then Malformed else Token("", ""))
    else if quoted && s[0] == '"' then Token("", s[1..])
    else if !quoted && IsAsciiWhitespace(s[0]) then Token("", s[1..])
    else if s[0] == '\\' then
      if |s| == 1 then Malformed else Extend(s[1], ReadToken(s[2..], quoted))
    else Extend(s[0], ReadToken(s[1..], quoted))
  }

  datatype NextResult = Finished | Spoiled | Next(text: string, rest: string)

  /** The next token after any blanks; an unterminated, dangling or empty one spoils the value. */
  function NextToken(value: string): (r: NextResult) {
    var s := SkipBlanks(value);
    if s == "" then Finished
    else
      var quoted := s[0] == '"';
      match ReadToken(if quoted then s[1..] else s, quoted)
      case Malformed => Spoiled
      case Token(text, rest) => if text == "" then Spoiled else Next(text, rest)
  }

  /** The first tokens of an Exec value, at most `limit`; a malformed token spoils them all. */
  function ExecTokens(value: string, limit: nat): Option<seq<string>>
    decreases limit
  {
    if limit == 0 then Some([])
    else
      match NextToken(value)
      case Finished => Some([])
      case Spoiled => None
      case Next(text, rest) => Joined([text], ExecTokens(rest, limit - 1))
  }

  /** Prepends tokens already read to the result for the rest. */
  function Joined(tokens: seq<string>, rest: Option<seq<string>>): Option<seq<string>> {
    if rest.None? then None else Some(tokens + rest.value)
  }

  lemma NothingJoined(rest: Option<seq<string>>)
    ensures Joined([], rest) == rest
  {
    if rest.Some? {
      assert [] + rest.value == rest.value;
    }
  }

  lemma JoinedTwice(tokens: seq<string>, text: string, rest: Option<seq<string>>)
    ensures Joined(tokens, Joined([text], rest)) == Joined(tokens + [text], rest)
  {
    if rest.Some? {
      assert tokens + ([text] + rest.value) == tokens + [text] + rest.value;
    }
  }

  method LinuxDesktopExecTokens(value: string, limit: nat) returns (tokens: seq<string>)
    ensures tokens == (if ExecTokens(value, limit).Some? then ExecTokens(value, limit).value else [])
  {
    tokens := [];
    var next := 0;
    assert value[0..] == value;
    NothingJoined(ExecTokens(value, limit));
    while |tokens| < limit
      invariant next <= |value| && |tokens| <= limit
      invariant ExecTokens(value, limit) == Joined(tokens, ExecTokens(value[next..], limit - |tokens|))
      decreases limit - |tokens|
    {
      var r, end := ReadNext(value, next);
      match r
      case Finished =>
        return;
      case Spoiled =>
        return [];
      case Next(text, _) =>
        JoinedTwice(tokens, text, ExecTokens(value[end..], limit - |tokens| - 1));
        next := end;
        tokens := tokens + [text];
    }
  }

  /** One round of the outer loop, from `from` on. */
  method ReadNext(value: string, from: nat) returns (r: NextResult, end: nat)
    requires from <= |value|
    ensures r == NextToken(value[from..]) && end <= |value|
    ensures r.Next? ==> r.rest == value[end..]
  {
    var next := PastBlanks(value, from);
    if next == |value| {
      return Finished, next;
    }
    var quoted := value[next] == '"';
    assert value[next..][1..] == value[next + 1..];
    if quoted {
      next := next + 1;
    }
    var text, after, terminated := TokenAt(value, next, quoted);
    if !terminated || text == "" {
      return Spoiled, after;
    }
    return Next(text, value[after..]), after;
  }

  method PastBlanks(value: string, from: nat) returns (next: nat)
    requires from <= |value|
    ensures from <= next <= |value| && value[next..] == SkipBlanks(value[from..])
    ensures next < |value| ==> !IsAsciiWhitespace(value[next])
  {
    next := from;
    while next < |value| && IsAsciiWhitespace(value[next])
      invariant from <= next <= |value| && SkipBlanks(value[next..]) == SkipBlanks(value[from..])
    {
      assert value[next..][1..] == value[next + 1..];
      next := next + 1;
    }
  }

  /** The text of the token that begins at `at` and the position behind it. */
  function ScanToken(value: string, at: nat, quoted: bool): (r: Option<(string, nat)>)
    requires at <= |value|
    ensures r.Some? ==> at <= r.value.1 <= |value|
    decreases |value| - at
  {
    if at == |value| then (if quoted then None else Some(("", at)))
    else if quoted && value[at] == '"' then Some(("", at + 1))
    else if !quoted && IsAsciiWhitespace(value[at]) then Some(("", at + 1))
    else if value[at] != '\\' then Onto(value[at], ScanToken(value, at + 1, quoted))
    else if at + 1 == |value| then None
    else Onto(value[at + 1], ScanToken(value, at + 2, quoted))
  }

  function Onto(c: char, r: Option<(string, nat)>): Option<(string, nat)> {
    if r.None? then None else Some(([c] + r.value.0, r.value.1))
  }

  function AllOnto(text: string, r: Option<(string, nat)>): Option<(string, nat)> {
    if r.None? then None else Some((text + r.value.0, r.value.1))
  }

  lemma AllOntoOnce(text: string, c: char, r: Option<(string, nat)>)
    ensures AllOnto(text, Onto(c, r)) == AllOnto(text + [c], r)
  {
    if r.Some? {
      assert text + ([c] + r.value.0) == text + [c] + r.value.0;
    }
  }

  lemma NothingOnto(text: string, r: Option<(string, nat)>, end: nat)
    ensures AllOnto("", r) == r && AllOnto(text, Some(("", end))) == Some((text, end))
  {
    assert text + "" == text;
    if r.Some? {
      assert "" + r.value.0 == r.value.0;
    }
  }

  /** Scanning by position reads what reading the remaining text does. */
  lemma {:induction false} ScanIsRead(value: string, at: nat, quoted: bool)
    requires at <= |value|
    ensures var r := ScanToken(value, at, quoted);
            ReadToken(value[at..], quoted) == if r.None? then Malformed else Token(r.value.0, value[r.value.1..])
    decreases |value| - at
  {
    if at < |value| {
      var here := value[at..];
      assert here[1..] == value[at + 1..];
      ScanIsRead(value, at + 1, quoted);
      if at + 1 < |value| {
        assert here[2..] == value[at + 2..];
        ScanIsRead(value, at + 2, quoted);
      }
    }
  }

  /** The character loop: reads one token from `from`, whose opening quote has been consumed. */
  method TokenAt(value: string, from: nat, quoted: bool) returns (text: string, end: nat, terminated: bool)
    requires from <= |value|
    ensures end <= |value|
    ensures terminated <==> ReadToken(value[from..], quoted).Token?
    ensures terminated ==> ReadToken(value[from..], quoted) == Token(text, value[end..])
  {
    ScanIsRead(value, from, quoted);
    text, end, terminated := ScanAt(value, from, quoted);
  }

  method ScanAt(value: string, from: nat, quoted: bool) returns (text: string, end: nat, terminated: bool)
    requires from <= |value|
    ensures end <= |value|
    ensures ScanToken(value, from, quoted) == if terminated then Some((text, end)) else None
  {
    text, end, terminated := "", from, !quoted;
    NothingOnto("", ScanToken(value, from, quoted), from);
    while end < |value|
      invariant from <= end <= |value| && terminated == !quoted
      invariant ScanToken(value, from, quoted) == AllOnto(text, ScanToken(value, end, quoted))
    {
      var character := value[end];
      end := end + 1;
      NothingOnto(text, None, end);
      if quoted && character == '"' {
        terminated := true;
        return;
      }
      if !quoted && IsAsciiWhitespace(character) {
        return;
      }
      if character == '\\' {
        if end == |value| {
          terminated := false;
          return;
        }
        AllOntoOnce(text, value[end], ScanToken(value, end + 1, quoted));
        text := text + [value[end]];
        end := end + 1;
      } else {
        AllOntoOnce(text, character, ScanToken(value, end, quoted));
        text := text + [character];
      }
    }
    NothingOnto(text, None, end);
  }

  /** A token between double quotes, its quotes and backslashes escaped, and what follows it. */
  function Quoted(text: string, rest: string): string {
    "\"" + (Escaped(text) + ("\"" + rest))
  }

  function Escaped(text: string): string {
    if text == "" then ""
    else EscapedChar(text[0]) + Escaped(text[1..])
  }

  function QuotedList(texts: seq<string>): string {
    if texts == [] then "" else Quoted(texts[0], " " + QuotedList(texts[1..]))
  }

  function EscapedChar(c: char): string {
    if c == '"' || c == '\\' then ['\\', c] else [c]
  }

  lemma EscapedCharIsRead(c: char, rest: string)
    ensures ReadToken(EscapedChar(c) + rest, true) == Extend(c, ReadToken(rest, true))
  {
    var s := EscapedChar(c) + rest;
    if c == '"' || c == '\\' {
      assert s[2..] == rest;
    } else {
      assert s[1..] == rest;
    }
  }

  lemma {:induction false} QuotedIsRead(text: string, rest: string)
    ensures ReadToken(Escaped(text) + ("\"" + rest), true) == Token(text, rest)
  {
    if text == "" {
      assert Escaped(text) + ("\"" + rest) == "\"" + rest && ("\"" + rest)[1..] == rest;
    } else {
      QuotedIsRead(text[1..], rest);
      EscapedUnfolds(text, "\"" + rest);
      EscapedCharIsRead(text[0], Escaped(text[1..]) + ("\"" + rest));
      assert [text[0]] + text[1..] == text;
    }
  }

  lemma EscapedUnfolds(text: string, tail: string)
    requires text != ""
    ensures Escaped(text) + tail == EscapedChar(text[0]) + (Escaped(text[1..]) + tail)
  {
  }

  lemma QuotedTokenIsNext(text: string, rest: string)
    requires text != ""
    ensures NextToken(Quoted(text, rest)) == Next(text, rest)
  {
    var s, inner := Quoted(text, rest), Escaped(text) + ("\"" + rest);
    assert s[0] == '"' && s[1..] == inner;
    QuotedIsRead(text, rest);
  }

  lemma QuotedHeadIsRead(text: string, rest: string, limit: nat)
    requires text != "" && limit > 0
    ensures ExecTokens(Quoted(text, rest), limit) == Joined([text], ExecTokens(rest, limit - 1))
  {
    QuotedTokenIsNext(text, rest);
  }

  function UpTo(texts: seq<string>, limit: nat): seq<string> {
    if |texts| <= limit then texts else texts[..limit]
  }

  /** The tokenizer reads the first `limit` of the quoted tokens back. */
  predicate ReadBack(texts: seq<string>, limit: nat) {
    ExecTokens(QuotedList(texts), limit) == Some(UpTo(texts, limit))
  }

  /** So it does of any list of quoted nonempty tokens. */
  lemma {:induction false} TokenizerReadsQuotedLists(texts: seq<string>, limit: nat)
    requires forall text :: text in texts ==> text != ""
    ensures ReadBack(texts, limit)
    decreases |texts|
  {
    if texts != [] && limit > 0 {
      var head, tail := texts[0], texts[1..];
      var whole := [head] + tail;
      assert whole == texts && head in texts && forall text :: text in tail ==> text in texts;
      TokenizerReadsQuotedLists(tail, limit - 1);
      OneMoreTokenIsRead(head, tail, limit);
    }
  }

  lemma OneMoreTokenIsRead(text: string, texts: seq<string>, limit: nat)
    requires text != "" && limit > 0 && ReadBack(texts, limit - 1)
    ensures ReadBack([text] + texts, limit)
  {
    QuotedListUnfolds(text, texts);
    QuotedHeadIsRead(text, " " + QuotedList(texts), limit);
    LeadingBlank(QuotedList(texts), limit - 1);
    UpToUnfolds(text, texts, limit);
  }

  lemma QuotedListUnfolds(text: string, texts: seq<string>)
    ensures QuotedList([text] + texts) == Quoted(text, " " + QuotedList(texts))
  {
    assert ([text] + texts)[1..] == texts;
  }

  lemma UpToUnfolds(text: string, texts: seq<string>, limit: nat)
    requires limit > 0
    ensures UpTo([text] + texts, limit) == [text] + UpTo(texts, limit - 1)
  {
  }

  lemma LeadingBlank(s: string, limit: nat)
    ensures ExecTokens(" " + s, limit) == ExecTokens(s, limit)
  {
    assert (" " + s)[1..] == s;
  }

  // ---------- Ownership of an Exec value ----------

  /** The last component of a path that is neither empty nor `.`, unless it is `..` or there is none. */
  function FileName(path: string): Option<string>
    decreases |path|
  {
    if path == "" then None
    else
      var k := AfterLastSlash(path);
      var last := path[k..];
      if last == "" || last == "." then (if k == 0 then None else FileName(path[..k - 1]))
      else if last == ".." then None
      else Some(last)
  }

  function AfterLastSlash(path: string): (k: nat)
    ensures k <= |path|
  {
    if path == "" || path[|path| - 1] == '/' then |path| else AfterLastSlash(path[..|path| - 1])
  }

  /** The value starts the tray helper, or the main binary with `tray`. */
  predicate ExecIsOwned(value: string) {
    match ExecTokens(value, 2)
    case None => false
    case Some(tokens) =>
      && tokens != []
      && FileName(tokens[0]).Some?
      && var basename := FileName(tokens[0]).value;
         basename == "wakezilla-tray" || (basename == "wakezilla" && |tokens| > 1 && tokens[1] == "tray")
  }

  lemma {:induction false} LastSlash(directory: string, name: string)
    requires '/' !in name
    ensures AfterLastSlash(directory + "/" + name) == |directory| + 1
  {
    var path := directory + "/" + name;
    if name != "" {
      assert path[..|path| - 1] == directory + "/" + name[..|name| - 1];
      LastSlash(directory, name[..|name| - 1]);
    }
  }

  /** A file name: one component of a path that names no directory. */
  predicate IsFileName(name: string) {
    name != "" && '/' !in name && name != "." && name != ".."
  }

  lemma FileNameIsLast(directory: string, name: string)
    requires IsFileName(name)
    ensures FileName(directory + "/" + name) == Some(name)
  {
    LastSlash(directory, name);
    assert (directory + "/" + name)[|directory| + 1..] == name;
  }

  /** A quoted command line is ours exactly if it runs the tray helper, or the main binary with `tray`. */
  lemma QuotedExecIsOwned(directory: string, name: string, arguments: seq<string>)
    requires IsFileName(name) && forall argument :: argument in arguments ==> argument != ""
    ensures ExecIsOwned(QuotedList([directory + "/" + name] + arguments)) <==>
              || name == "wakezilla-tray"
              || (name == "wakezilla" && |arguments| > 0 && arguments[0] == "tray")
  {
    var texts := [directory + "/" + name] + arguments;
    TokenizerReadsQuotedLists(texts, 2);
    FileNameIsLast(directory, name);
    assert UpTo(texts, 2)[0] == directory + "/" + name;
    assert |arguments| > 0 ==> UpTo(texts, 2)[1] == arguments[0];
  }

  method LinuxLegacyExecIsOwned(value: string) returns (owned: bool)
    ensures owned <==> ExecIsOwned(value)
  {
    var tokens := LinuxDesktopExecTokens(value, 2);
    if tokens == [] {
      return false;
    }
    var basename := FileName(tokens[0]);
    if basename.None? {
      return false;
    }
    return basename.value == "wakezilla-tray" || (basename.value == "wakezilla" && |tokens| > 1 && tokens[1] == "tray");
  }

  // ---------- The line scan ----------

  predicate IsHeader(line: string) {
    line != "" && line[0] == '[' && line[|line| - 1] == ']'
  }

  /** The position of the first equals sign, or the length if there is none. */
  function FirstEquals(line: string): (k: nat)
    ensures k <= |line|
  {
    if line == "" || line[0] == '=' then 0 else FirstEquals(line[1..]) + 1
  }

  /** The trimmed key and value of an assignment line. */
  function Assignment(line: string): Option<(string, string)> {
    var k := FirstEquals(line);
    if k == |line| then None else Some((Trim(line[..k]), Trim(line[k + 1..])))
  }

  function TrimmedLines(content: string): seq<string> {
    var lines := Lines(content);
    seq(|lines|, i requires 0 <= i < |lines| => Trim(lines[i]))
  }

  /** The value last assigned to `key` in `lines[first..end]`. */
  function LastAssigned(lines: seq<string>, first: nat, end: nat, key: string): Option<string>
    requires first <= end <= |lines|
    decreases end
  {
    if first == end then None
    else
      var assignment := Assignment(lines[end - 1]);
      if assignment.Some? && assignment.value.0 == key then Some(assignment.value.1)
      else LastAssigned(lines, first, end - 1, key)
  }

  predicate TypeQualifies(value: Option<string>) {
    value == Some("Application")
  }

  predicate NameQualifies(value: Option<string>) {
    value == Some("Wakezilla") || value == Some("Wakezilla Tray")
  }

  predicate ExecQualifies(value: Option<string>) {
    value.Some? && ExecIsOwned(value.value)
  }

  /** `lines[header..to]` is a desktop entry group, so far, whose last values all qualify. */
  predicate GroupQualifies(lines: seq<string>, header: nat, to: nat)
    requires header < to <= |lines|
  {
    && lines[header] == "[Desktop Entry]"
    && TypeQualifies(LastAssigned(lines, header + 1, to, "Type"))
    && NameQualifies(LastAssigned(lines, header + 1, to, "Name"))
    && ExecQualifies(LastAssigned(lines, header + 1, to, "Exec"))
  }

  /** A group runs from its header to the line before the next header or to the end. */
  predicate IsGroup(lines: seq<string>, header: nat, end: nat) {
    && header < end <= |lines|
    && IsHeader(lines[header])
    && (forall k :: header < k < end ==> !IsHeader(lines[k]))
    && (end < |lines| ==> IsHeader(lines[end]))
  }

  /** Some desktop entry group of the file has last-assigned Type, Name and Exec values that all qualify. */
  ghost predicate SomeGroupQualifies(lines: seq<string>) {
    exists header, end :: IsGroup(lines, header, end) && GroupQualifies(lines, header, end)
  }

  /** The flags say which of the group's last-assigned values qualify after the lines before `i`. */
  predicate FlagsAre(lines: seq<string>, header: nat, i: nat, entryType: bool, name: bool, exec: bool)
    requires header < i <= |lines|
  {
    && (entryType <==> TypeQualifies(LastAssigned(lines, header + 1, i, "Type")))
    && (name <==> NameQualifies(LastAssigned(lines, header + 1, i, "Name")))
    && (exec <==> ExecQualifies(LastAssigned(lines, header + 1, i, "Exec")))
  }

  /** What the flags know after the lines before `i`, the current group starting at `header`. */
  ghost predicate ScannedTo(lines: seq<string>, header: int, i: nat, inDesktopEntry: bool, entryType: bool, name: bool,
                            exec: bool) {
    && IsLastHeader(lines, header, i)
    && (inDesktopEntry <==> header >= 0 && lines[header] == "[Desktop Entry]")
    && (if inDesktopEntry then FlagsAre(lines, header, i, entryType, name, exec) else !entryType && !name && !exec)
    && (forall h: nat, e: nat :: e <= header && IsGroup(lines, h, e) ==> !GroupQualifies(lines, h, e))
  }

  method LinuxLegacyAutostartIsOwned(content: string) returns (owned: bool)
    ensures owned <==> SomeGroupQualifies(TrimmedLines(content))
  {
    var lines := TrimmedLines(content);
    var inDesktopEntry, entryType, name, exec := false, false, false, false;
    ghost var header := -1;
    for i := 0 to |lines|
      invariant ScannedTo(lines, header, i, inDesktopEntry, entryType, name, exec)
    {
      if inDesktopEntry && entryType && name && exec && IsHeader(lines[i]) {
        ClosedGroupQualifies(lines, header, i, entryType, name, exec);
        return true;
      }
      inDesktopEntry, entryType, name, exec, header :=
        ScanLine(lines[i], inDesktopEntry, entryType, name, exec, lines, header, i);
    }
    owned := entryType && name && exec;
    ScanEnd(lines, header, inDesktopEntry, entryType, name, exec);
  }

  /** One line that does not decide the scan: a header starts a group, any other line belongs to the current one. */
  method ScanLine(line: string, inDesktopEntry: bool, entryType: bool, name: bool, exec: bool,
                  ghost lines: seq<string>, ghost header: int, ghost i: nat)
    returns (d: bool, t: bool, n: bool, e: bool, ghost h: int)
    requires i < |lines| && line == lines[i]
    requires ScannedTo(lines, header, i, inDesktopEntry, entryType, name, exec)
    requires !(inDesktopEntry && entryType && name && exec && IsHeader(line))
    ensures ScannedTo(lines, h, i + 1, d, t, n, e)
    ensures d == if IsHeader(line) then line == "[Desktop Entry]" else inDesktopEntry
    ensures IsHeader(line) ==> !t && !n && !e
  {
    d, t, n, e, h := inDesktopEntry, entryType, name, exec, header;
    if IsHeader(line) {
      HeaderStep(lines, header, i, inDesktopEntry, entryType, name, exec);
      d, t, n, e, h := line == "[Desktop Entry]", false, false, false, i;
    } else if inDesktopEntry {
      t, n, e := ReadAssignment(line, entryType, name, exec);
      AssignmentStep(lines, header, i, entryType, name, exec, t, n, e);
    }
  }

  lemma ClosedGroupQualifies(lines: seq<string>, header: int, i: nat, entryType: bool, name: bool, exec: bool)
    requires i < |lines| && IsHeader(lines[i])
    requires ScannedTo(lines, header, i, true, entryType, name, exec) && entryType && name && exec
    ensures SomeGroupQualifies(lines)
  {
    assert IsGroup(lines, header, i) && GroupQualifies(lines, header, i);
  }

  lemma AssignmentStep(lines: seq<string>, header: int, i: nat, entryType: bool, name: bool, exec: bool, t: bool,
                       n: bool, e: bool)
    requires i < |lines| && !IsHeader(lines[i])
    requires ScannedTo(lines, header, i, true, entryType, name, exec)
    requires FlagsAfter(lines[i], entryType, name, exec, t, n, e)
    ensures ScannedTo(lines, header, i + 1, true, t, n, e)
  {
  }

  /** A header closes a group that does not qualify and starts one with nothing assigned. */
  lemma HeaderStep(lines: seq<string>, header: int, i: nat, inDesktopEntry: bool, entryType: bool, name: bool,
                   exec: bool)
    requires i < |lines| && IsHeader(lines[i])
    requires ScannedTo(lines, header, i, inDesktopEntry, entryType, name, exec)
    requires !(inDesktopEntry && entryType && name && exec)
    ensures ScannedTo(lines, i, i + 1, lines[i] == "[Desktop Entry]", false, false, false)
  {
    forall h: nat, e: nat | e <= i && IsGroup(lines, h, e)
      ensures !GroupQualifies(lines, h, e)
    {
      GroupsEndAtHeaders(lines, h, e, header, i);
    }
  }

  lemma ScanEnd(lines: seq<string>, header: int, inDesktopEntry: bool, entryType: bool, name: bool, exec: bool)
    requires ScannedTo(lines, header, |lines|, inDesktopEntry, entryType, name, exec)
    ensures entryType && name && exec <==> SomeGroupQualifies(lines)
  {
    if entryType && name && exec {
      assert IsGroup(lines, header, |lines|) && GroupQualifies(lines, header, |lines|);
    }
    forall h: nat, e: nat | IsGroup(lines, h, e) && GroupQualifies(lines, h, e)
      ensures entryType && name && exec
    {
      LastGroup(lines, h, e, header);
    }
  }

  /** The last line before `i` that is a header, or -1. */
  ghost predicate IsLastHeader(lines: seq<string>, header: int, i: nat) {
    && -1 <= header < i <= |lines|
    && (header >= 0 ==> IsHeader(lines[header]))
    && (forall k :: header < k < i ==> !IsHeader(lines[k]))
  }

  /** An assignment sets the flag of its key and no other. */
  predicate FlagsAfter(line: string, hasType: bool, name: bool, exec: bool, t: bool, n: bool, e: bool) {
    var entry := Assignment(line);
    && t == (if entry.Some? && entry.value.0 == "Type" then TypeQualifies(Some(entry.value.1)) else hasType)
    && n == (if entry.Some? && entry.value.0 == "Name" then NameQualifies(Some(entry.value.1)) else name)
    && e == (if entry.Some? && entry.value.0 == "Exec" then ExecQualifies(Some(entry.value.1)) else exec)
  }

  /** One line of the current group. */
  method ReadAssignment(line: string, hasType: bool, name: bool, exec: bool) returns (t: bool, n: bool, e: bool)
    ensures FlagsAfter(line, hasType, name, exec, t, n, e)
  {
    t, n, e := hasType, name, exec;
    var k := FirstEquals(line);
    if k == |line| {
      return;
    }
    var key, value := Trim(line[..k]), Trim(line[k + 1..]);
    if key == "Type" {
      t := value == "Application";
    } else if key == "Name" {
      n := value == "Wakezilla" || value == "Wakezilla Tray";
    } else if key == "Exec" {
      e := LinuxLegacyExecIsOwned(value);
    }
  }

  /** A group that ends no later than the header at `i` ended by the header before it, or is the one just closed. */
  lemma GroupsEndAtHeaders(lines: seq<string>, h: nat, e: nat, closed: int, i: nat)
    requires IsGroup(lines, h, e) && e <= i < |lines| && IsHeader(lines[i])
    requires IsLastHeader(lines, closed, i)
    ensures e <= closed || (h == closed && e == i)
  {
    assert IsHeader(lines[h]) && (e < i ==> IsHeader(lines[e]));
  }

  lemma LastGroup(lines: seq<string>, h: nat, e: nat, header: int)
    requires IsGroup(lines, h, e) && IsLastHeader(lines, header, |lines|)
    ensures e <= header || (h == header && e == |lines|)
  {
    assert IsHeader(lines[h]) && (e < |lines| ==> IsHeader(lines[e]));
  }

  // ---------- A whole entry ----------

  /** A value without blanks around it, on one line. */
  predicate IsTidy(value: string) {
    value != "" && !IsWhitespace(value[0]) && !IsWhitespace(value[|value| - 1]) && '\n' !in value
  }

  lemma TidyIsTrimmed(value: string)
    requires IsTidy(value)
    ensures Trim(value) == value && WithoutCarriageReturn(value) == value
  {
  }

  lemma {:induction false} EqualsAfter(key: string, value: string)
    requires '=' !in key
    ensures FirstEquals(key + ("=" + value)) == |key|
  {
    if key != "" {
      assert (key + ("=" + value))[1..] == key[1..] + ("=" + value);
      EqualsAfter(key[1..], value);
    }
  }

  lemma AssignmentOf(key: string, value: string)
    requires IsTidy(key) && '=' !in key && IsTidy(value)
    ensures Assignment(key + ("=" + value)) == Some((key, value)) && IsTidy(key + ("=" + value))
  {
    var line := key + ("=" + value);
    EqualsAfter(key, value);
    TidyIsTrimmed(key);
    TidyIsTrimmed(value);
    assert line[..|key|] == key && line[|key| + 1..] == value;
  }

  lemma TrimmedLinesOfFirst(line: string, rest: string)
    requires IsTidy(line)
    ensures TrimmedLines(line + ("\n" + rest)) == [line] + TrimmedLines(rest)
  {
    LinesOfFirst(line, rest);
    TidyIsTrimmed(line);
  }

  lemma TrimmedLinesOfLast(line: string)
    requires IsTidy(line)
    ensures TrimmedLines(line) == [line]
  {
    assert forall i :: 0 <= i < |line| ==> line[i] in line;
    NoNewlineBefore(line);
    TidyIsTrimmed(line);
  }

  function Line(key: string, value: string): string {
    key + ("=" + value)
  }

  function Joined4(a: string, b: string, c: string, d: string): string {
    a + ("\n" + (b + ("\n" + (c + ("\n" + d)))))
  }

  lemma LinesOfJoined4(a: string, b: string, c: string, d: string)
    requires IsTidy(a) && IsTidy(b) && IsTidy(c) && IsTidy(d)
    ensures TrimmedLines(Joined4(a, b, c, d)) == [a, b, c, d]
  {
    TrimmedLinesOfLast(d);
    TrimmedLinesOfFirst(c, d);
    TrimmedLinesOfFirst(b, c + ("\n" + d));
    TrimmedLinesOfFirst(a, b + ("\n" + (c + ("\n" + d))));
  }

  /** The entry of an earlier version, with these values. */
  function Entry(entryType: string, name: string, exec: string): string {
    Joined4("[Desktop Entry]", Line("Type", entryType), Line("Name", name), Line("Exec", exec))
  }

  /** Such an entry is ours exactly if it is an application of one of the two names that starts one of the binaries. */
  lemma EntryIsOwned(entryType: string, name: string, exec: string)
    requires IsTidy(entryType) && IsTidy(name) && IsTidy(exec)
    ensures SomeGroupQualifies(TrimmedLines(Entry(entryType, name, exec))) <==>
              entryType == "Application" && name in {"Wakezilla", "Wakezilla Tray"} && ExecIsOwned(exec)
  {
    KeysDiffer();
    GroupIsOwned("[Desktop Entry]", "Type", entryType, "Name", name, "Exec", exec);
  }

  lemma KeysDiffer()
    ensures IsTidy("[Desktop Entry]") && IsHeader("[Desktop Entry]")
    ensures forall key :: key in {"Type", "Name", "Exec"} ==> IsTidy(key) && '=' !in key && key[0] != '['
  {
  }

  lemma GroupIsOwned(header: string, key1: string, value1: string, key2: string, value2: string, key3: string,
                     value3: string)
    requires header == "[Desktop Entry]" && key1 == "Type" && key2 == "Name" && key3 == "Exec"
    requires IsTidy(header) && IsHeader(header)
    requires forall key :: key in {key1, key2, key3} ==> IsTidy(key) && '=' !in key && key[0] != '['
    requires IsTidy(value1) && IsTidy(value2) && IsTidy(value3)
    ensures var content := Joined4(header, Line(key1, value1), Line(key2, value2), Line(key3, value3));
            SomeGroupQualifies(TrimmedLines(content)) <==>
              TypeQualifies(Some(value1)) && NameQualifies(Some(value2)) && ExecQualifies(Some(value3))
  {
    AssignmentOf(key1, value1);
    AssignmentOf(key2, value2);
    AssignmentOf(key3, value3);
    LinesOfJoined4(header, Line(key1, value1), Line(key2, value2), Line(key3, value3));
    OneGroup([header, Line(key1, value1), Line(key2, value2), Line(key3, value3)], value1, value2, value3);
  }

  lemma OneGroup(lines: seq<string>, entryType: string, name: string, exec: string)
    requires |lines| == 4 && lines[0] == "[Desktop Entry]" && IsHeader(lines[0])
    requires !IsHeader(lines[1]) && !IsHeader(lines[2]) && !IsHeader(lines[3])
    requires Assignment(lines[1]) == Some(("Type", entryType)) && Assignment(lines[2]) == Some(("Name", name))
    requires Assignment(lines[3]) == Some(("Exec", exec))
    ensures SomeGroupQualifies(lines) <==>
              TypeQualifies(Some(entryType)) && NameQualifies(Some(name)) && ExecQualifies(Some(exec))
  {
    LastOfEntry(lines, entryType, name, exec);
    assert IsGroup(lines, 0, 4);
    forall h: nat, e: nat | IsGroup(lines, h, e)
      ensures h == 0 && e == 4
    {
    }
  }

  lemma LastOfEntry(lines: seq<string>, entryType: string, name: string, exec: string)
    requires |lines| == 4
    requires Assignment(lines[1]) == Some(("Type", entryType)) && Assignment(lines[2]) == Some(("Name", name))
    requires Assignment(lines[3]) == Some(("Exec", exec))
    ensures LastAssigned(lines, 1, 4, "Type") == Some(entryType)
    ensures LastAssigned(lines, 1, 4, "Name") == Some(name)
    ensures LastAssigned(lines, 1, 4, "Exec") == Some(exec)
  {
    assert "Type"[0] != "Name"[0] && "Type"[0] != "Exec"[0] && "Name"[0] != "Exec"[0];
    assert LastAssigned(lines, 1, 3, "Name") == Some(name);
    assert LastAssigned(lines, 1, 2, "Type") == Some(entryType);
    assert LastAssigned(lines, 1, 3, "Type") == Some(entryType);
  }
}
