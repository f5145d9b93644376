// MAC address validation (src/web.rs), comparison (src/proxy_server.rs) and parsing (src/wol.rs).
module MacAddress {
  import opened Common
  import opened Text

  predicate IsHexDigit(c: char) {
    '0' <= c <= '9' || 'A' <= c <= 'F' || 'a' <= c <= 'f'
  }

  predicate HexPair(s: string, i: nat)
    requires i + 1 < |s|
  {
    IsHexDigit(s[i]) && IsHexDigit(s[i + 1])
  }

  predicate IsSeparator(c: char) {
    c == ':' || c == '-'
  }

  /** The language of `^([0-9A-Fa-f]{2}[:-]){5}([0-9A-Fa-f]{2})$`. */
  predicate ValidMac(s: string) {
    && |s| == 17
    && HexPair(s, 0) && IsSeparator(s[2])
    && HexPair(s, 3) && IsSeparator(s[5])
    && HexPair(s, 6) && IsSeparator(s[8])
    && HexPair(s, 9) && IsSeparator(s[11])
    && HexPair(s, 12) && IsSeparator(s[14])
    && HexPair(s, 15)
  }

  function HexValue(c: char): nat
    requires IsHexDigit(c)
  {
    if c <= '9' then c as int - '0' as int
    else if c <= 'F' then c as int - 'A' as int + 10
    else c as int - 'a' as int + 10
  }

  function HexDigits(s: string): (digits: string)
    ensures forall i :: 0 <= i < |digits| ==> IsHexDigit(digits[i])
  {
    if s == "" then ""
    else HexDigits(s[..|s| - 1]) + if IsHexDigit(s[|s| - 1]) then [s[|s| - 1]] else ""
  }

  /** The six bytes a text denotes, or the number of hexadecimal digits found in it. */
  function ParsedMac(s: string): Result<seq<nat>, nat> {
    var hex := HexDigits(s);
    if |hex| != 12 then Err(|hex|)
    else Ok(seq(6, i requires 0 <= i < 6 => 16 * HexValue(hex[2 * i]) + HexValue(hex[2 * i + 1])))
  }

  method ParseMac(s: string) returns (r: Result<seq<nat>, nat>)
    ensures r == ParsedMac(s)
  {
    var hex := "";
    for i := 0 to |s|
      invariant hex == HexDigits(s[..i])
    {
      assert s[..i + 1][..i] == s[..i];
      if IsHexDigit(s[i]) {
        hex := hex + [s[i]];
      }
    }
    assert s[..|s|] == s;
    if |hex| != 12 {
      return Err(|hex|);
    }
    var mac := new nat[6](_ => 0);
    for i := 0 to 6
      invariant forall k :: 0 <= k < i ==> mac[k] == 16 * HexValue(hex[2 * k]) + HexValue(hex[2 * k + 1])
    {
      mac[i] := 16 * HexValue(hex[2 * i]) + HexValue(hex[2 * i + 1]);
    }
    assert mac[..] == seq(6, i requires 0 <= i < 6 => 16 * HexValue(hex[2 * i]) + HexValue(hex[2 * i + 1]));
    return Ok(mac[..]);
  }

  function LowerAscii(c: char): char {
    if 'A' <= c <= 'Z' then (c as int + 32) as char else c
  }

  predicate EqualIgnoringAsciiCase(a: string, b: string) {
    |a| == |b| && forall i :: 0 <= i < |a| ==> LowerAscii(a[i]) == LowerAscii(b[i])
  }

  /** The comparison registration makes: separators unified, letter case ignored. */
  predicate SameMac(a: string, b: string) {
    EqualIgnoringAsciiCase(Replace(a, '-', ":"), Replace(b, '-', ":"))
  }

  lemma {:induction false} ReplaceBySingleton(s: string, c: char, d: char)
    ensures |Replace(s, c, [d])| == |s|
    ensures forall i :: 0 <= i < |s| ==> Replace(s, c, [d])[i] == if s[i] == c then d else s[i]
  {
    if s != "" {
      ReplaceBySingleton(s[1..], c, d);
    }
  }

  lemma AppendHexPair(s: string, i: nat)
    requires i + 1 < |s| && HexPair(s, i)
    ensures HexDigits(s[..i + 2]) == HexDigits(s[..i]) + [s[i], s[i + 1]]
  {
    assert s[..i + 2][..i + 1] == s[..i + 1] && s[..i + 1][..i] == s[..i];
  }

  lemma AppendSeparatedPair(s: string, i: nat)
    requires i + 2 < |s| && HexPair(s, i) && IsSeparator(s[i + 2])
    ensures HexDigits(s[..i + 3]) == HexDigits(s[..i]) + [s[i], s[i + 1]]
  {
    AppendHexPair(s, i);
    assert s[..i + 3][..i + 2] == s[..i + 2];
  }

  lemma FirstDigitsOfValidMac(s: string)
    requires ValidMac(s)
    ensures HexDigits(s[..9]) == [s[0], s[1], s[3], s[4], s[6], s[7]]
  {
    assert s[..0] == "";
    AppendSeparatedPair(s, 0);
    AppendSeparatedPair(s, 3);
    AppendSeparatedPair(s, 6);
  }

  /** The hexadecimal digits of a valid address: all but every third character, in order. */
  lemma DigitsOfValidMac(s: string)
    requires ValidMac(s)
    ensures HexDigits(s) == [s[0], s[1], s[3], s[4], s[6], s[7]] + [s[9], s[10], s[12], s[13], s[15], s[16]]
  {
    assert s[..17] == s;
    FirstDigitsOfValidMac(s);
    AppendSeparatedPair(s, 9);
    AppendSeparatedPair(s, 12);
    AppendHexPair(s, 15);
  }

  function PairValue(s: string, i: nat): nat
    requires i + 1 < |s| && HexPair(s, i)
  {
    16 * HexValue(s[i]) + HexValue(s[i + 1])
  }

  lemma BytesOfValidMac(s: string)
    requires ValidMac(s)
    ensures ParsedMac(s) == Ok([PairValue(s, 0), PairValue(s, 3), PairValue(s, 6),
                                PairValue(s, 9), PairValue(s, 12), PairValue(s, 15)])
  {
    DigitsOfValidMac(s);
    var hex, bytes := HexDigits(s), ParsedMac(s).value;
    assert hex[0] == s[0] && hex[1] == s[1] && hex[2] == s[3] && hex[3] == s[4] && hex[4] == s[6] && hex[5] == s[7];
    assert hex[6] == s[9] && hex[7] == s[10] && hex[8] == s[12] && hex[9] == s[13] && hex[10] == s[15]
      && hex[11] == s[16];
    var expected :=
        [PairValue(s, 0), PairValue(s, 3), PairValue(s, 6), PairValue(s, 9), PairValue(s, 12), PairValue(s, 15)];
    assert bytes[0] == expected[0] && bytes[1] == expected[1] && bytes[2] == expected[2];
    assert bytes[3] == expected[3] && bytes[4] == expected[4] && bytes[5] == expected[5];
    assert bytes == expected;
  }

  // ---------- Formatting ----------

  predicate AreBytes(bytes: seq<nat>) {
    |bytes| == 6 && forall i :: 0 <= i < 6 ==> bytes[i] < 256
  }

  function HexChar(digit: nat, upper: bool): (c: char)
    requires digit < 16
    ensures IsHexDigit(c) && HexValue(c) == digit
  {
    if digit < 10 then ('0' as int + digit) as char
    else if upper then ('A' as int + digit - 10) as char
    else ('a' as int + digit - 10) as char
  }

  function High(byte: nat, upper: bool): char
    requires byte < 256
  {
    HexChar(byte / 16, upper)
  }

  function Low(byte: nat, upper: bool): char
    requires byte < 256
  {
    HexChar(byte % 16, upper)
  }

  /** Six bytes as a text of two hexadecimal digits each, in either case and with either separator. */
  function FormatMac(bytes: seq<nat>, upper: bool, separator: char): string
    requires AreBytes(bytes)
  {
    [High(bytes[0], upper), Low(bytes[0], upper), separator, High(bytes[1], upper), Low(bytes[1], upper), separator,
     High(bytes[2], upper), Low(bytes[2], upper), separator, High(bytes[3], upper), Low(bytes[3], upper), separator,
     High(bytes[4], upper), Low(bytes[4], upper), separator, High(bytes[5], upper), Low(bytes[5], upper)]
  }

  /** What is written of six bytes is valid and parsed as them. */
  lemma FormattedMacIsParsed(bytes: seq<nat>, upper: bool, separator: char)
    requires AreBytes(bytes) && IsSeparator(separator)
    ensures ValidMac(FormatMac(bytes, upper, separator))
    ensures ParsedMac(FormatMac(bytes, upper, separator)) == Ok(bytes)
  {
    var s := FormatMac(bytes, upper, separator);
    PairIsWritten(s, 0, bytes[0], upper);
    PairIsWritten(s, 3, bytes[1], upper);
    PairIsWritten(s, 6, bytes[2], upper);
    PairIsWritten(s, 9, bytes[3], upper);
    PairIsWritten(s, 12, bytes[4], upper);
    PairIsWritten(s, 15, bytes[5], upper);
    BytesOfValidMac(s);
    assert bytes == [bytes[0], bytes[1], bytes[2], bytes[3], bytes[4], bytes[5]];
  }

  lemma PairIsWritten(s: string, i: nat, byte: nat, upper: bool)
    requires i + 1 < |s| && byte < 256 && s[i] == High(byte, upper) && s[i + 1] == Low(byte, upper)
    ensures HexPair(s, i) && PairValue(s, i) == byte
  {
  }

  ghost predicate PairMatches(a: string, b: string, i: nat)
    requires i + 1 < |a| && i + 1 < |b|
  {
    LowerAscii(a[i]) == LowerAscii(b[i]) && LowerAscii(a[i + 1]) == LowerAscii(b[i + 1])
  }

  lemma PairValueIgnoresOnlyCase(a: string, b: string, i: nat)
    requires i + 1 < |a| && i + 1 < |b| && HexPair(a, i) && HexPair(b, i)
    ensures PairValue(a, i) == PairValue(b, i) <==> PairMatches(a, b, i)
  {
    HexValueIgnoresOnlyCase(a[i], b[i]);
    HexValueIgnoresOnlyCase(a[i + 1], b[i + 1]);
    HexValueIgnoresOnlyCase(b[i + 1], a[i + 1]);
  }

  lemma HexValueIgnoresOnlyCase(c: char, d: char)
    requires IsHexDigit(c) && IsHexDigit(d)
    ensures HexValue(c) < 16
    ensures HexValue(c) == HexValue(d) <==> LowerAscii(c) == LowerAscii(d)
  {
  }

  ghost predicate SameAt(a: string, b: string, i: nat)
    requires i < |a| && i < |b|
  {
    LowerAscii(if a[i] == '-' then ':' else a[i]) == LowerAscii(if b[i] == '-' then ':' else b[i])
  }

  lemma SameMacIsSameEverywhere(a: string, b: string)
    ensures SameMac(a, b) <==> |a| == |b| && forall i :: 0 <= i < |a| ==> SameAt(a, b, i)
  {
    ReplaceBySingleton(a, '-', ':');
    ReplaceBySingleton(b, '-', ':');
    var x, y := Replace(a, '-', ":"), Replace(b, '-', ":");
    if |a| == |b| {
      assert forall i :: 0 <= i < |a| ==> (LowerAscii(x[i]) == LowerAscii(y[i]) <==> SameAt(a, b, i));
    }
  }

  lemma SameMacIsSamePairs(a: string, b: string)
    requires ValidMac(a) && ValidMac(b)
    ensures SameMac(a, b) <==>
            && PairMatches(a, b, 0) && PairMatches(a, b, 3) && PairMatches(a, b, 6)
            && PairMatches(a, b, 9) && PairMatches(a, b, 12) && PairMatches(a, b, 15)
  {
    SameMacIsSameEverywhere(a, b);
    assert SameAt(a, b, 2) && SameAt(a, b, 5) && SameAt(a, b, 8) && SameAt(a, b, 11) && SameAt(a, b, 14);
    assert PairMatches(a, b, 0) <==> SameAt(a, b, 0) && SameAt(a, b, 1);
    assert PairMatches(a, b, 3) <==> SameAt(a, b, 3) && SameAt(a, b, 4);
    assert PairMatches(a, b, 6) <==> SameAt(a, b, 6) && SameAt(a, b, 7);
    assert PairMatches(a, b, 9) <==> SameAt(a, b, 9) && SameAt(a, b, 10);
    assert PairMatches(a, b, 12) <==> SameAt(a, b, 12) && SameAt(a, b, 13);
    assert PairMatches(a, b, 15) <==> SameAt(a, b, 15) && SameAt(a, b, 16);
  }

  /** On valid addresses the textual comparison is equality of the six bytes. */
  lemma SameMacIsSameBytes(a: string, b: string)
    requires ValidMac(a) && ValidMac(b)
    ensures ParsedMac(a).Ok? && ParsedMac(b).Ok?
    ensures SameMac(a, b) <==> ParsedMac(a) == ParsedMac(b)
  {
    SameMacIsSamePairs(a, b);
    BytesOfValidMac(a);
    BytesOfValidMac(b);
    PairValueIgnoresOnlyCase(a, b, 0);
    PairValueIgnoresOnlyCase(a, b, 3);
    PairValueIgnoresOnlyCase(a, b, 6);
    PairValueIgnoresOnlyCase(a, b, 9);
    PairValueIgnoresOnlyCase(a, b, 12);
    PairValueIgnoresOnlyCase(a, b, 15);
    var u, v := ParsedMac(a).value, ParsedMac(b).value;
    assert u == v <==> u[0] == v[0] && u[1] == v[1] && u[2] == v[2] && u[3] == v[3] && u[4] == v[4] && u[5] == v[5];
  }

  /** Without validation the two notions differ: other separators hide a duplicate. */
  lemma UnvalidatedMacsCanCollide()
    ensures exists a, b :: !SameMac(a, b) && ParsedMac(a).Ok? && ParsedMac(a) == ParsedMac(b)
  {
    var a := seq(12, _ => '0');
    TrailingBlankCollides(a);
  }

  /** Twelve digits, and the same with a blank behind them. */
  lemma TrailingBlankCollides(a: string)
    requires |a| == 12 && forall i :: 0 <= i < |a| ==> IsHexDigit(a[i])
    ensures !SameMac(a, a + " ") && ParsedMac(a).Ok? && ParsedMac(a) == ParsedMac(a + " ")
  {
    ReplaceBySingleton(a, '-', ':');
    ReplaceBySingleton(a + " ", '-', ':');
    TrailingBlankIsIgnored(a);
    AllHexDigits(a);
  }

  lemma TrailingBlankIsIgnored(s: string)
    ensures HexDigits(s + " ") == HexDigits(s)
  {
    assert (s + " ")[..|s|] == s;
  }

  lemma {:induction false} AllHexDigits(s: string)
    requires forall i :: 0 <= i < |s| ==> IsHexDigit(s[i])
    ensures HexDigits(s) == s
  {
    if s != "" {
      AllHexDigits(s[..|s| - 1]);
    }
  }
}
