// The backwards log reader of src/service.rs: it reads chunks from the end of the file until it has
// seen more line feeds than lines wanted, and prints the last lines of what it read.
module LogTail {
  import opened Common
  import opened Text

  newtype byte = x: int | 0 <= x < 256

  const CHUNK_SIZE: nat := 8192
  const LINE_FEED: byte := 10

  function CountNewlines(s: seq<byte>): nat {
    if s == [] then 0 else (if s[0] == LINE_FEED then 1 else 0) + CountNewlines(s[1..])
  }

  lemma {:induction false} CountNewlinesAdds(a: seq<byte>, b: seq<byte>)
    ensures CountNewlines(a + b) == CountNewlines(a) + CountNewlines(b)
  {
    if a == [] {
      assert a + b == b;
    } else {
      assert (a + b)[1..] == a[1..] + b;
      CountNewlinesAdds(a[1..], b);
    }
  }

  function Flatten(chunks: seq<seq<byte>>): seq<byte> {
    if chunks == [] then [] else chunks[0] + Flatten(chunks[1..])
  }

  /** `tail` is the end of the file, and the whole of it unless it has more line feeds than wanted. */
  ghost predicate IsTailFor(file: seq<byte>, lineCount: nat, tail: seq<byte>) {
    && |tail| <= |file|
    && tail == file[|file| - |tail|..]
    && (tail == file || CountNewlines(tail) > lineCount)
  }

  method ReadTailForLines(file: seq<byte>, lineCount: nat) returns (tail: seq<byte>)
    ensures IsTailFor(file, lineCount, tail)
    // No chunk was read that the ones after it made unnecessary.
    ensures |tail| > CHUNK_SIZE ==> CountNewlines(tail[CHUNK_SIZE..]) <= lineCount
  {
    var remaining := |file|;
    var newlineCount := 0;
    var chunks: seq<seq<byte>> := [];
    while remaining > 0 && newlineCount <= lineCount
      invariant 0 <= remaining <= |file|
      invariant Flatten(chunks) == file[remaining..]
      invariant newlineCount == CountNewlines(file[remaining..])
      invariant chunks == [] ==> remaining == |file|
      invariant chunks != [] ==> |chunks[0]| <= CHUNK_SIZE && CountNewlines(Flatten(chunks[1..])) <= lineCount
      decreases remaining
    {
      var readLen := if remaining < CHUNK_SIZE then remaining else CHUNK_SIZE;
      ghost var later := file[remaining..];
      remaining := remaining - readLen;
      var chunk := file[remaining..remaining + readLen];
      SplitsSuffix(file, remaining, remaining + readLen);
      CountNewlinesAdds(chunk, later);
      var count := CountInChunk(chunk);
      newlineCount := newlineCount + count;
      ghost var readBefore := chunks;
      chunks := [chunk] + chunks;
      assert chunks[0] == chunk && chunks[1..] == readBefore;
    }
    tail := Concatenated(chunks);
    if |tail| > CHUNK_SIZE {
      SecondChunkOn(chunks[0], Flatten(chunks[1..]), CHUNK_SIZE);
    }
  }

  method Concatenated(chunks: seq<seq<byte>>) returns (tail: seq<byte>)
    ensures tail == Flatten(chunks)
  {
    tail := [];
    for i := 0 to |chunks|
      invariant tail + Flatten(chunks[i..]) == Flatten(chunks)
    {
      assert chunks[i..][1..] == chunks[i + 1..];
      tail := tail + chunks[i];
    }
  }

  lemma SplitsSuffix(file: seq<byte>, from: nat, middle: nat)
    requires from <= middle <= |file|
    ensures file[from..] == file[from..middle] + file[middle..]
  {
  }

  lemma SecondChunkOn(chunk: seq<byte>, rest: seq<byte>, n: nat)
    requires |chunk| <= n <= |chunk| + |rest|
    ensures CountNewlines((chunk + rest)[n..]) <= CountNewlines(rest)
  {
    var k := n - |chunk|;
    assert (chunk + rest)[n..] == rest[k..] && rest == rest[..k] + rest[k..];
    CountNewlinesAdds(rest[..k], rest[k..]);
  }

  method CountInChunk(chunk: seq<byte>) returns (count: nat)
    ensures count == CountNewlines(chunk)
  {
    count := 0;
    for i := 0 to |chunk|
      invariant count == CountNewlines(chunk[..i])
    {
      assert chunk[..i + 1] == chunk[..i] + [chunk[i]];
      CountNewlinesAdds(chunk[..i], [chunk[i]]);
      if chunk[i] == LINE_FEED {
        count := count + 1;
      }
    }
    assert chunk[..|chunk|] == chunk;
  }

  function LastLines(lines: seq<string>, n: nat): seq<string> {
    if |lines| <= n then lines else lines[|lines| - n..]
  }

  // ---------- Lossy UTF-8 decoding ----------

  const REPLACEMENT: char := '\U{FFFD}'

  function At(s: seq<byte>, i: nat): byte {
    if i < |s| then s[i] else 0
  }

  predicate IsContinuation(b: byte) {
    0x80 <= b <= 0xBF
  }

  /** The second bytes that may follow the lead byte of a three- or four-byte sequence. */
  predicate MayFollow(lead: byte, second: byte) {
    IsContinuation(second) &&
    match lead
    case 0xE0 => 0xA0 <= second
    case 0xED => second <= 0x9F
    case 0xF0 => 0x90 <= second
    case 0xF4 => second <= 0x8F
    case _ => true
  }

  function Bits(b: byte, base: byte): int {
    b as int - base as int
  }

  /** The first character of a text and how many bytes it takes; an ill-formed prefix is one replacement. */
  function FirstChar(s: seq<byte>): (r: (nat, char))
    requires s != []
    ensures 1 <= r.0 <= |s|
  {
    var b0, b1, b2, b3 := s[0], At(s, 1), At(s, 2), At(s, 3);
    if b0 < 0x80 then (1, b0 as int as char)
    else if 0xC2 <= b0 <= 0xDF then
      if !IsContinuation(b1) then (1, REPLACEMENT)
      else (2, (0x40 * Bits(b0, 0xC0) + Bits(b1, 0x80)) as char)
    else if 0xE0 <= b0 <= 0xEF then
      if !MayFollow(b0, b1) then (1, REPLACEMENT)
      else if !IsContinuation(b2) then (2, REPLACEMENT)
      else (3, (0x1000 * Bits(b0, 0xE0) + 0x40 * Bits(b1, 0x80) + Bits(b2, 0x80)) as char)
    else if 0xF0 <= b0 <= 0xF4 then
      if !MayFollow(b0, b1) then (1, REPLACEMENT)
      else if !IsContinuation(b2) then (2, REPLACEMENT)
      else if !IsContinuation(b3) then (3, REPLACEMENT)
      else (4, (0x4_0000 * Bits(b0, 0xF0) + 0x1000 * Bits(b1, 0x80) + 0x40 * Bits(b2, 0x80) + Bits(b3, 0x80)) as char)
    else (1, REPLACEMENT)
  }

  /** `String::from_utf8_lossy`. */
  function Utf8Lossy(s: seq<byte>): string {
    if s == [] then "" else [FirstChar(s).1] + Utf8Lossy(s[FirstChar(s).0..])
  }

  /** The bytes of one character (section 3 of RFC 3629). */
  function Utf8Char(c: char): (bytes: seq<byte>)
    ensures bytes != []
  {
    var n := c as int;
    if n < 0x80 then [n as byte]
    else if n < 0x800 then [(0xC0 + n / 0x40) as byte, Low(n)]
    else if n < 0x1_0000 then [(0xE0 + n / 0x1000) as byte, Low(n / 0x40), Low(n)]
    else [(0xF0 + n / 0x4_0000) as byte, Low(n / 0x1000), Low(n / 0x40), Low(n)]
  }

  /** The continuation byte for the last six bits. */
  function Low(n: nat): byte {
    (0x80 + n % 0x40) as byte
  }

  function Utf8(s: string): seq<byte> {
    if s == "" then [] else Utf8Char(s[0]) + Utf8(s[1..])
  }

  lemma EncodedCharIsRead(c: char, rest: seq<byte>)
    ensures FirstChar(Utf8Char(c) + rest) == (|Utf8Char(c)|, c)
  {
    var s, n := Utf8Char(c) + rest, c as int;
    assert forall i :: 0 <= i < |Utf8Char(c)| ==> s[i] == Utf8Char(c)[i];
    SixBits(n);
  }

  lemma SixBits(n: nat)
    ensures n == n / 0x40 * 0x40 + n % 0x40
    ensures n / 0x40 == n / 0x1000 * 0x40 + n / 0x40 % 0x40
    ensures n / 0x1000 == n / 0x4_0000 * 0x40 + n / 0x1000 % 0x40
  {
  }

  /** What is well-formed is decoded as what it encodes. */
  lemma {:induction false} EncodedIsDecoded(s: string)
    ensures Utf8Lossy(Utf8(s)) == s
  {
    if s != "" {
      EncodedCharIsRead(s[0], Utf8(s[1..]));
      EncodedIsDecoded(s[1..]);
      assert Utf8(s)[|Utf8Char(s[0])|..] == Utf8(s[1..]);
    }
  }

  /** A character never reaches across a line feed. */
  lemma FirstCharStopsAtLineFeed(a: seq<byte>, b: seq<byte>)
    requires a != []
    ensures FirstChar(a + [LINE_FEED] + b) == FirstChar(a)
  {
    var s := a + [LINE_FEED] + b;
    assert s[|a|] == LINE_FEED;
    assert forall i :: 0 <= i < |a| ==> s[i] == a[i];
  }

  lemma {:induction false} LossyDecodesAcross(a: seq<byte>, b: seq<byte>)
    ensures Utf8Lossy(a + [LINE_FEED] + b) == Utf8Lossy(a) + "\n" + Utf8Lossy(b)
    decreases |a|
  {
    var s := a + [LINE_FEED] + b;
    if a == [] {
      assert s[0] == LINE_FEED && s[1..] == b;
    } else {
      FirstCharStopsAtLineFeed(a, b);
      var n := FirstChar(a).0;
      assert s[n..] == a[n..] + [LINE_FEED] + b;
      LossyDecodesAcross(a[n..], b);
    }
  }

  lemma LossyDecodesLineByLine()
    ensures DecodesLineByLine(Utf8Lossy)
  {
    forall a, b
      ensures Utf8Lossy(a + [LINE_FEED] + b) == Utf8Lossy(a) + "\n" + Utf8Lossy(b)
    {
      LossyDecodesAcross(a, b);
    }
  }

  // ---------- Printing ----------

  /**
   * A line feed is never part of a longer sequence, so a text decodes independently on its two sides.
   */
  ghost predicate DecodesLineByLine(decode: seq<byte> -> string) {
    && decode([]) == ""
    && (forall a, b :: decode(a + [LINE_FEED] + b) == decode(a) + "\n" + decode(b))
  }

  method PrintLastLogLines(file: seq<byte>, lineCount: nat) returns (printed: seq<string>)
    ensures printed == LastLines(Lines(Utf8Lossy(file)), lineCount)
  {
    LossyDecodesLineByLine();
    printed := PrintDecoded(Utf8Lossy, file, lineCount);
  }

  method PrintDecoded(decode: seq<byte> -> string, file: seq<byte>, lineCount: nat) returns (printed: seq<string>)
    requires DecodesLineByLine(decode)
    ensures printed == LastLines(Lines(decode(file)), lineCount)
  {
    printed := [];
    if lineCount == 0 {
      return;
    }
    var tail := ReadTailForLines(file, lineCount);
    var lines := Lines(decode(tail));
    var start := if |lines| >= lineCount then |lines| - lineCount else 0;
    for i := start to |lines|
      invariant printed == lines[start..i]
    {
      printed := printed + [lines[i]];
    }
    TailHasTheLastLines(decode, file, lineCount, tail);
  }

  lemma {:induction false} FirstLineFeed(s: seq<byte>) returns (k: nat)
    requires CountNewlines(s) > 0
    ensures k < |s| && s[k] == LINE_FEED && CountNewlines(s[k + 1..]) == CountNewlines(s) - 1
  {
    if s[0] == LINE_FEED {
      k := 0;
    } else {
      k := FirstLineFeed(s[1..]);
      assert s[1..][k + 1..] == s[k + 2..];
      k := k + 1;
    }
  }

  /** There are at least as many lines as line feeds. */
  lemma {:induction false} LinesCoverNewlines(decode: seq<byte> -> string, s: seq<byte>)
    requires DecodesLineByLine(decode)
    ensures |Lines(decode(s))| >= CountNewlines(s)
    decreases |s|
  {
    if CountNewlines(s) > 0 {
      var k := FirstLineFeed(s);
      var a, b := s[..k], s[k + 1..];
      assert s == a + [LINE_FEED] + b;
      LinesCoverNewlines(decode, b);
      LinesSplitAtNewline(decode(a), decode(b));
      assert decode(a) + "\n" != "";
    }
  }

  /** What precedes a line feed is not among the last lines once the rest has enough of them. */
  lemma LastLinesAfter(decode: seq<byte> -> string, s: seq<byte>, k: nat, n: nat)
    requires DecodesLineByLine(decode)
    requires k < |s| && s[k] == LINE_FEED && CountNewlines(s[k + 1..]) >= n
    ensures LastLines(Lines(decode(s)), n) == LastLines(Lines(decode(s[k + 1..])), n)
  {
    var before, rest := s[..k], s[k + 1..];
    assert s == before + [LINE_FEED] + rest;
    LinesSplitAtNewline(decode(before), decode(rest));
    LinesCoverNewlines(decode, rest);
    LastOfConcatenation(Lines(decode(before) + "\n"), Lines(decode(rest)), n);
  }

  lemma LastOfConcatenation(a: seq<string>, b: seq<string>, n: nat)
    requires |b| >= n
    ensures LastLines(a + b, n) == LastLines(b, n)
  {
  }

  lemma TailWithin(file: seq<byte>, skipped: nat, tail: seq<byte>, k: nat)
    requires skipped <= |file| && tail == file[skipped..] && k < |tail|
    ensures file[skipped + k] == tail[k] && file[skipped + k + 1..] == tail[k + 1..]
  {
  }

  /** The last lines of the chunks read are the last lines of the whole file. */
  lemma TailHasTheLastLines(decode: seq<byte> -> string, file: seq<byte>, lineCount: nat, tail: seq<byte>)
    requires DecodesLineByLine(decode) && IsTailFor(file, lineCount, tail)
    ensures LastLines(Lines(decode(tail)), lineCount) == LastLines(Lines(decode(file)), lineCount)
  {
    if tail != file {
      var k := FirstLineFeed(tail);
      LastLinesAfter(decode, tail, k, lineCount);
      var skipped := |file| - |tail|;
      TailWithin(file, skipped, tail, k);
      LastLinesAfter(decode, file, skipped + k, lineCount);
    }
  }
}
