/** Static key files: the printer (write_key_file with format_hex_ex) and the character-by-character
    parser (read_key_file). A file holds one or two keys of `onekeylen` bytes; `keylen` is the size of
    the array of two keys. */
module KeyFile {

  import opened Basics
  import opened Sequences

  const HEAD: string := "-----BEGIN OpenVPN Static key V1-----"
  const FOOT: string := "-----END OpenVPN Static key V1-----"
  const BYTES_PER_LINE: nat := 16

  // ---- hexadecimal

  function HexDigit(n: nat): char
    requires n < 16
  {
    if n < 10 then '0' + n as char else 'a' + (n - 10) as char
  }

  predicate IsHex(c: char) {
    '0' <= c <= '9' || 'a' <= c <= 'f' || 'A' <= c <= 'F'
  }

  function HexValue(c: char): (n: nat)
    requires IsHex(c)
    ensures n < 16
  {
    if '0' <= c <= '9' then (c - '0') as int else if 'a' <= c <= 'f' then (c - 'a') as int + 10
      else (c - 'A') as int + 10
  }

  predicate IsSpace(c: char) {
    c == ' ' || '\t' <= c <= '\r'
  }

  function HexByte(b: byte): (s: string)
    ensures |s| == 2
  {
    [HexDigit(b / 16), HexDigit(b % 16)]
  }

  lemma HexRoundTrip(b: byte)
    ensures var s := HexByte(b);
            && IsHex(s[0]) && IsHex(s[1]) && s[0] != '-' && s[1] != '-' && s[0] != '\n' && s[1] != '\n'
            && HexValue(s[0]) * 16 + HexValue(s[1]) == b
  {}

  // ---- printing

  /** format_hex_ex with a line break as separator: the text of the first `n` bytes. */
  function FormatHex(data: seq<byte>, n: nat): string
    requires n <= |data|
  {
    if n == 0 then "" else
    FormatHex(data, n - 1) + (if n - 1 > 0 && (n - 1) % BYTES_PER_LINE == 0 then "\n" else "") + HexByte(data[n - 1])
  }

  function FormatKeys(keys: seq<seq<byte>>, n: nat): string
    requires n <= |keys|
  {
    if n == 0 then "" else FormatKeys(keys, n - 1) + FormatHex(keys[n - 1], |keys[n - 1]|) + "\n"
  }

  function Decimal(n: nat): string {
    var last := ['0' + (n % 10) as char];
    if n < 10 then last else Decimal(n / 10) + last
  }

  function Comment(nbits: nat): string {
    "# " + Decimal(nbits) + " bit OpenVPN static key"
  }

  function Preamble(nbits: nat): string {
    ("#" + "\n") + (Comment(nbits) + "\n") + ("#" + "\n")
  }

  /** The text of the file: a comment, the header line, the keys and the footer line. */
  function PrintKeys(keys: seq<seq<byte>>, onekeylen: nat): string {
    Preamble(|keys| * onekeylen * 8) + (HEAD + "\n") + FormatKeys(keys, |keys|) + (FOOT + "\n")
  }

  // ---- parsing

  datatype State = PARSE_INITIAL | PARSE_HEAD | PARSE_DATA | PARSE_DATA_COMPLETE | PARSE_FOOT | PARSE_FINISHED

  /** The parser's variables: `hexByte` holds the `hb_index` hex digits read so far, `out` the bytes
      stored; `fatal` is set when a non-hex character ends the program. */
  datatype Parser = Parser(state: State, lineIndex: nat, matched: nat, hexByte: string, out: seq<byte>, fatal: bool)

  const START: Parser := Parser(PARSE_INITIAL, 0, 0, "", [], false)

  /** State changes on the first character of a line. */
  function AtLineStart(s: State, lineIndex: nat, c: char): State {
    if lineIndex > 0 then s else
    var s' := if s == PARSE_HEAD then PARSE_DATA else s;
    if (s' == PARSE_DATA || s' == PARSE_DATA_COMPLETE) && c == '-' then PARSE_FOOT else s'
  }

  /** Comparing the character with the header or the footer line. */
  function Compare(s: State, lineIndex: nat, matched: nat, c: char): (State, nat) {
    if s == PARSE_INITIAL && lineIndex < |HEAD| && c == HEAD[lineIndex] then
      (if matched + 1 == |HEAD| then PARSE_HEAD else PARSE_INITIAL, matched + 1)
    else if s == PARSE_FOOT && lineIndex < |FOOT| && c == FOOT[lineIndex] then
      (if matched + 1 == |FOOT| then PARSE_FINISHED else PARSE_FOOT, matched + 1)
    else (s, matched)
  }

  /** Reading key data. */
  function ReadData(p: Parser, c: char, keylen: nat): Parser {
    if p.state != PARSE_DATA then p
    else if IsHex(c) then
      var hexByte := p.hexByte + [c];
      if |hexByte| == 2 && IsHex(hexByte[0]) then
        var out := p.out + [HexValue(hexByte[0]) * 16 + HexValue(c)];
        p.(hexByte := "", out := out, state := if |out| == keylen then PARSE_DATA_COMPLETE else PARSE_DATA)
      else p.(hexByte := hexByte)
    else if IsSpace(c) then p
    else p.(fatal := true)
  }

  function Step(p: Parser, c: char, keylen: nat): Parser {
    if p.fatal then p
    else if c == '\n' then p.(lineIndex := 0, matched := 0)
    else
      var (state, matched) := Compare(AtLineStart(p.state, p.lineIndex, c), p.lineIndex, p.matched, c);
      var p' := ReadData(p.(state := state, matched := matched), c, keylen);
      if p'.fatal then p' else p'.(lineIndex := p.lineIndex + 1)
  }

  function Run(p: Parser, text: string, keylen: nat): Parser {
    if text == "" then p else Step(Run(p, text[..|text| - 1], keylen), text[|text| - 1], keylen)
  }

  // ---- every input

  /** At most `keylen` bytes are stored and at most one hex digit is pending, so every use of
      `hb_index` is below 2 and the number of whole keys is at most two. */
  ghost predicate Safe(p: Parser, keylen: nat) {
    && |p.hexByte| < 2 && (forall c :: c in p.hexByte ==> IsHex(c))
    && |p.out| <= keylen
    && (p.state in {PARSE_INITIAL, PARSE_HEAD} ==> p.out == [] && p.hexByte == "")
    && (p.state == PARSE_DATA ==> |p.out| < keylen)
    && (p.state == PARSE_DATA_COMPLETE ==> |p.out| == keylen)
  }

  lemma StepSafe(p: Parser, c: char, keylen: nat)
    requires Safe(p, keylen) && keylen > 0
    ensures Safe(Step(p, c, keylen), keylen)
  {}

  lemma {:induction false} RunKeepsSafe(p: Parser, text: string, keylen: nat)
    requires Safe(p, keylen) && keylen > 0
    ensures Safe(Run(p, text, keylen), keylen)
  {
    if text != "" {
      RunKeepsSafe(p, text[..|text| - 1], keylen);
      StepSafe(Run(p, text[..|text| - 1], keylen), text[|text| - 1], keylen);
    }
  }

  /** Whatever the text. */
  lemma {:induction false} RunSafe(text: string, onekeylen: nat)
    requires onekeylen > 0
    ensures var p := Run(START, text, 2 * onekeylen);
            |p.hexByte| < 2 && |p.out| <= 2 * onekeylen && |p.out| / onekeylen <= 2
  {
    RunKeepsSafe(START, text, 2 * onekeylen);
    var p := Run(START, text, 2 * onekeylen);
    QuotientBound(|p.out|, onekeylen, 2);
  }

  lemma {:induction false} RunConcat(p: Parser, a: string, b: string, keylen: nat)
    ensures Run(p, a + b, keylen) == Run(Run(p, a, keylen), b, keylen)
  {
    if b == "" {
      assert a + b == a;
    } else {
      RunConcat(p, a, b[..|b| - 1], keylen);
      assert (a + b)[..|a + b| - 1] == a + b[..|b| - 1];
    }
  }

  lemma RunOne(p: Parser, c: char, keylen: nat)
    ensures Run(p, [c], keylen) == Step(p, c, keylen)
  {
    assert Run(p, "", keylen) == p;
    assert [c][..0] == "";
  }

  /** After the footer nothing changes any more but the position. */
  lemma {:induction false} FinishedStays(p: Parser, text: string, keylen: nat)
    requires p.state == PARSE_FINISHED && !p.fatal
    ensures var p' := Run(p, text, keylen); p'.state == PARSE_FINISHED && p'.out == p.out && !p'.fatal
  {
    if text != "" { FinishedStays(p, text[..|text| - 1], keylen); }
  }

  // ---- reading back what was printed

  /** A line that does not begin with the header's first character is skipped before the header. */
  lemma {:induction false} SkipsComment(line: string, keylen: nat)
    requires line != "" && line[0] != '-' && '\n' !in line
    ensures var p := Run(START, line, keylen);
            p == START.(lineIndex := |line|, matched := p.matched) && p.matched < |line| && p.matched < |HEAD|
  {
    var m := |line| - 1;
    RunUnfold(START, line, keylen);
    if m > 0 {
      SkipsComment(line[..m], keylen);
    }
  }

  lemma RunUnfold(p: Parser, text: string, keylen: nat)
    requires text != ""
    ensures Run(p, text, keylen) == Step(Run(p, text[..|text| - 1], keylen), text[|text| - 1], keylen)
  {}

  lemma NoNewline()
    ensures '\n' !in HEAD && '\n' !in FOOT && FOOT[0] == '-'
  {}

  lemma {:induction false} ReadsHead(i: nat, keylen: nat)
    requires i <= |HEAD|
    ensures Run(START, HEAD[..i], keylen) ==
            Parser(if i == |HEAD| then PARSE_HEAD else PARSE_INITIAL, i, i, "", [], false)
  {
    if i > 0 {
      var text := HEAD[..i];
      RunUnfold(START, text, keylen);
      assert text[..i - 1] == HEAD[..i - 1] && text[i - 1] == HEAD[i - 1];
      ReadsHead(i - 1, keylen);
      HeadStep(i - 1, keylen);
    }
  }

  lemma HeadStep(i: nat, keylen: nat)
    requires i < |HEAD|
    ensures Step(Parser(PARSE_INITIAL, i, i, "", [], false), HEAD[i], keylen) ==
            Parser(if i + 1 == |HEAD| then PARSE_HEAD else PARSE_INITIAL, i + 1, i + 1, "", [], false)
  {
    assert HEAD[i] != '\n' by {
      NoNewline();
      assert HEAD[i] in HEAD;
    }
  }

  /** The parser at the start of a line, with everything in `out` read. */
  ghost predicate LineStart(p: Parser, out: seq<byte>) {
    p.lineIndex == 0 && p.matched == 0 && p.hexByte == "" && p.out == out && !p.fatal
  }

  lemma {:induction false} ReadsFoot(p: Parser, i: nat, keylen: nat)
    requires LineStart(p, p.out) && (p.state == PARSE_DATA || p.state == PARSE_DATA_COMPLETE)
    requires 0 < i <= |FOOT|
    ensures Run(p, FOOT[..i], keylen) == p.(state := if i == |FOOT| then PARSE_FINISHED else PARSE_FOOT,
                                            lineIndex := i, matched := i)
  {
    var text := FOOT[..i];
    RunUnfold(p, text, keylen);
    assert text[..i - 1] == FOOT[..i - 1] && text[i - 1] == FOOT[i - 1];
    if i > 1 {
      ReadsFoot(p, i - 1, keylen);
      FootStep(p.(state := PARSE_FOOT, lineIndex := i - 1, matched := i - 1), keylen);
    } else {
      FootBegins(p, keylen);
    }
  }

  lemma FootChar(i: nat)
    requires i < |FOOT|
    ensures FOOT[i] != '\n' && (i == 0 ==> FOOT[i] == '-')
  {
    NoNewline();
    assert FOOT[i] in FOOT;
  }

  lemma FootStep(p: Parser, keylen: nat)
    requires p.state == PARSE_FOOT && !p.fatal && 0 < p.lineIndex == p.matched < |FOOT|
    ensures Step(p, FOOT[p.lineIndex], keylen) ==
            p.(state := if p.lineIndex + 1 == |FOOT| then PARSE_FINISHED else PARSE_FOOT, lineIndex := p.lineIndex + 1,
               matched := p.lineIndex + 1)
  {
    FootChar(p.lineIndex);
  }

  lemma FootBegins(p: Parser, keylen: nat)
    requires LineStart(p, p.out) && (p.state == PARSE_DATA || p.state == PARSE_DATA_COMPLETE)
    ensures Step(p, FOOT[0], keylen) == p.(state := PARSE_FOOT, lineIndex := 1, matched := 1)
  {
    FootChar(0);
  }

  /** The parser inside key data, or about to enter it. */
  ghost predicate Reading(p: Parser, out: seq<byte>, keylen: nat) {
    && !p.fatal && p.hexByte == "" && p.out == out
    && (if |out| == keylen then p.state == PARSE_DATA_COMPLETE
        else p.state == PARSE_DATA || (p.state == PARSE_HEAD && p.lineIndex == 0))
  }

  lemma {:induction false} ReadsByte(p: Parser, b: byte, out: seq<byte>, keylen: nat)
    requires Reading(p, out, keylen) && |out| < keylen
    ensures Reading(Run(p, HexByte(b), keylen), out + [b], keylen)
  {
    HexRoundTrip(b);
    var s := HexByte(b);
    assert s == [s[0]] + [s[1]];
    RunConcat(p, [s[0]], [s[1]], keylen);
    RunOne(p, s[0], keylen);
    RunOne(Step(p, s[0], keylen), s[1], keylen);
  }

  lemma ReadsNewline(p: Parser, out: seq<byte>, keylen: nat)
    requires Reading(p, out, keylen)
    ensures Reading(Run(p, "\n", keylen), out, keylen) && LineStart(Run(p, "\n", keylen), out)
  {
    RunOne(p, '\n', keylen);
  }

  lemma {:induction false} ReadsHex(p: Parser, data: seq<byte>, n: nat, out: seq<byte>, keylen: nat)
    requires Reading(p, out, keylen) && n <= |data| && |out| + |data| <= keylen
    ensures Reading(Run(p, FormatHex(data, n), keylen), out + data[..n], keylen)
  {
    if n == 0 {
      assert out + data[..0] == out;
    } else {
      var sep := if n - 1 > 0 && (n - 1) % BYTES_PER_LINE == 0 then "\n" else "";
      ReadsHex(p, data, n - 1, out, keylen);
      ReadsMore(p, FormatHex(data, n - 1), sep, data[n - 1], out + data[..n - 1], keylen);
      assert out + data[..n] == out + data[..n - 1] + [data[n - 1]];
    }
  }

  lemma ReadsMore(p: Parser, front: string, sep: string, b: byte, out: seq<byte>, keylen: nat)
    requires Reading(Run(p, front, keylen), out, keylen) && |out| < keylen && (sep == "" || sep == "\n")
    ensures Reading(Run(p, front + sep + HexByte(b), keylen), out + [b], keylen)
  {
    RunConcat(p, front, sep, keylen);
    RunConcat(p, front + sep, HexByte(b), keylen);
    ReadsSpacedByte(Run(p, front, keylen), sep, b, out, keylen);
  }

  lemma ReadsSpacedByte(p: Parser, sep: string, b: byte, out: seq<byte>, keylen: nat)
    requires Reading(p, out, keylen) && |out| < keylen && (sep == "" || sep == "\n")
    ensures Reading(Run(Run(p, sep, keylen), HexByte(b), keylen), out + [b], keylen)
  {
    if sep != "" { ReadsNewline(p, out, keylen); }
    ReadsByte(Run(p, sep, keylen), b, out, keylen);
  }

  /** The keys' bytes one after the other. */
  function Concat(keys: seq<seq<byte>>, n: nat): seq<byte>
    requires n <= |keys|
  {
    if n == 0 then [] else Concat(keys, n - 1) + keys[n - 1]
  }

  lemma {:induction false} ConcatLength(keys: seq<seq<byte>>, n: nat, onekeylen: nat)
    requires n <= |keys| && forall k :: k in keys ==> |k| == onekeylen
    ensures |Concat(keys, n)| == n * onekeylen
  {
    if n > 0 {
      ConcatLength(keys, n - 1, onekeylen);
      assert keys[n - 1] in keys;
      assert n * onekeylen == (n - 1) * onekeylen + onekeylen;
    }
  }

  lemma {:induction false} ReadsKeys(p: Parser, keys: seq<seq<byte>>, n: nat, keylen: nat)
    requires Reading(p, [], keylen) && LineStart(p, []) && n <= |keys| && |Concat(keys, n)| <= keylen
    ensures var p' := Run(p, FormatKeys(keys, n), keylen);
            Reading(p', Concat(keys, n), keylen) && LineStart(p', Concat(keys, n))
  {
    if n > 0 {
      ReadsKeys(p, keys, n - 1, keylen);
      ReadsNextKey(p, FormatKeys(keys, n - 1), keys[n - 1], Concat(keys, n - 1), keylen);
    }
  }

  lemma ReadsNextKey(p: Parser, front: string, key: seq<byte>, out: seq<byte>, keylen: nat)
    requires Reading(Run(p, front, keylen), out, keylen) && |out| + |key| <= keylen
    ensures var p' := Run(p, front + FormatHex(key, |key|) + "\n", keylen);
            Reading(p', out + key, keylen) && LineStart(p', out + key)
  {
    var line := FormatHex(key, |key|);
    ReadsKey(Run(p, front, keylen), key, out, keylen);
    RunConcat(p, front, line + "\n", keylen);
    Associative(front, line, "\n");
  }

  lemma {:induction false} ReadsKey(p: Parser, key: seq<byte>, out: seq<byte>, keylen: nat)
    requires Reading(p, out, keylen) && |out| + |key| <= keylen
    ensures var p' := Run(p, FormatHex(key, |key|) + "\n", keylen);
            Reading(p', out + key, keylen) && LineStart(p', out + key)
  {
    var text := FormatHex(key, |key|);
    ReadsHex(p, key, |key|, out, keylen);
    assert key[..|key|] == key;
    RunConcat(p, text, "\n", keylen);
    ReadsNewline(Run(p, text, keylen), out + key, keylen);
  }

  /** A comment line and its line break leave the parser at the start. */
  lemma {:induction false} SkipsLine(line: string, keylen: nat)
    requires line != "" && line[0] != '-' && '\n' !in line
    ensures Run(START, line + "\n", keylen) == START
  {
    SkipsComment(line, keylen);
    RunConcat(START, line, "\n", keylen);
    RunOne(Run(START, line, keylen), '\n', keylen);
  }

  lemma {:induction false} DecimalDigits(n: nat)
    ensures '\n' !in Decimal(n)
  {
    if n >= 10 { DecimalDigits(n / 10); }
  }

  lemma {:induction false} ReadsPreamble(nbits: nat, keylen: nat)
    ensures Run(START, Preamble(nbits), keylen) == START
  {
    DecimalDigits(nbits);
    var c := Comment(nbits);
    SkipsLine("#", keylen);
    SkipsLine(c, keylen);
    RunConcat(START, "#" + "\n", c + "\n", keylen);
    RunConcat(START, ("#" + "\n") + (c + "\n"), "#" + "\n", keylen);
  }

  lemma {:induction false} ReadsHeadLine(keylen: nat)
    requires keylen > 0
    ensures var p := Run(START, HEAD + "\n", keylen);
            Reading(p, [], keylen) && LineStart(p, []) && p.state == PARSE_HEAD
  {
    ReadsHead(|HEAD|, keylen);
    assert HEAD[..|HEAD|] == HEAD;
    RunConcat(START, HEAD, "\n", keylen);
    RunOne(Run(START, HEAD, keylen), '\n', keylen);
  }

  lemma QuotientBound(x: nat, d: nat, n: nat)
    requires d > 0 && x <= n * d
    ensures x / d <= n && (x == n * d ==> x / d == n)
  {
    var q := x / d;
    assert x == d * q + x % d;
    assert q > n ==> d * q >= d * (n + 1);
    assert q < n ==> d * q <= d * (n - 1);
  }

  lemma {:induction false} ReadsFootLine(p: Parser, keylen: nat)
    requires LineStart(p, p.out) && (p.state == PARSE_DATA || p.state == PARSE_DATA_COMPLETE)
    ensures var p' := Run(p, FOOT + "\n", keylen); p'.state == PARSE_FINISHED && !p'.fatal && p'.out == p.out
  {
    ReadsFoot(p, |FOOT|, keylen);
    assert FOOT[..|FOOT|] == FOOT;
    RunConcat(p, FOOT, "\n", keylen);
    FinishedStays(Run(p, FOOT, keylen), "\n", keylen);
  }

  /** From the header line on. */
  lemma {:induction false} ReadsBody(keys: seq<seq<byte>>, keylen: nat)
    requires keys != [] && keys[0] != [] && |Concat(keys, |keys|)| <= keylen
    ensures var p := Run(Run(Run(START, HEAD + "\n", keylen), FormatKeys(keys, |keys|), keylen), FOOT + "\n", keylen);
            p.state == PARSE_FINISHED && !p.fatal && p.out == Concat(keys, |keys|)
  {
    ConcatNotEmpty(keys, |keys|);
    ReadsHeadLine(keylen);
    var p1 := Run(START, HEAD + "\n", keylen);
    ReadsKeys(p1, keys, |keys|, keylen);
    KeysLeaveHead(p1, keys, keylen);
    ReadsFootLine(Run(p1, FormatKeys(keys, |keys|), keylen), keylen);
  }

  /** Reading a printed file recovers exactly the key bytes and ends behind the footer. */
  lemma {:induction false} RoundTrip(keys: seq<seq<byte>>, onekeylen: nat)
    requires 1 <= |keys| <= 2 && onekeylen > 0 && forall k :: k in keys ==> |k| == onekeylen
    ensures var p := Run(START, PrintKeys(keys, onekeylen), 2 * onekeylen);
            && p.state == PARSE_FINISHED && !p.fatal
            && p.out == Concat(keys, |keys|) && |p.out| / onekeylen == |keys|
  {
    var keylen := 2 * onekeylen;
    ConcatLength(keys, |keys|, onekeylen);
    QuotientBound(|Concat(keys, |keys|)|, onekeylen, |keys|);
    assert keys[0] in keys;
    ReadsBody(keys, keylen);
    ReadsPreamble(|keys| * onekeylen * 8, keylen);
    RunFourParts(Preamble(|keys| * onekeylen * 8), HEAD + "\n", FormatKeys(keys, |keys|), FOOT + "\n", keylen);
  }

  /** What is parsed: the file, or an inline text with its terminator. */
  function Input(file: string, inline: bool): string {
    if inline then file + "\0" else file
  }

  /** The program ends: at a character that does not belong to a key, or, when reading must succeed, without a
      whole key or without the footer. */
  predicate Fails(p: Parser, onekeylen: nat, mustSucceed: bool)
    requires onekeylen > 0
  {
    p.fatal || (mustSucceed && (|p.out| / onekeylen == 0 || p.state != PARSE_FINISHED))
  }

  /** A printed file is accepted from a file and inline, also when reading must succeed, and gives the keys. */
  lemma {:induction false} PrintedAccepted(keys: seq<seq<byte>>, onekeylen: nat, inline: bool, mustSucceed: bool)
    requires 1 <= |keys| <= 2 && onekeylen > 0 && forall k :: k in keys ==> |k| == onekeylen
    ensures var p := Run(START, Input(PrintKeys(keys, onekeylen), inline), 2 * onekeylen);
            !Fails(p, onekeylen, mustSucceed) && p.out == Concat(keys, |keys|) && |p.out| / onekeylen == |keys|
  {
    var keylen := 2 * onekeylen;
    var text := PrintKeys(keys, onekeylen);
    RoundTrip(keys, onekeylen);
    if inline {
      RunConcat(START, text, "\0", keylen);
      FinishedStays(Run(START, text, keylen), "\0", keylen);
    }
  }

  lemma {:induction false} RunFourParts(a: string, b: string, c: string, d: string, keylen: nat)
    ensures Run(START, a + b + c + d, keylen) == Run(Run(Run(Run(START, a, keylen), b, keylen), c, keylen), d, keylen)
  {
    RunConcat(START, a, b, keylen);
    RunConcat(START, a + b, c, keylen);
    RunConcat(START, a + b + c, d, keylen);
  }

  /** Key data has been entered once a byte was read. */
  lemma {:induction false} KeysLeaveHead(p: Parser, keys: seq<seq<byte>>, keylen: nat)
    requires keys != [] && keys[0] != [] && Safe(p, keylen) && keylen > 0
    requires Reading(p, [], keylen) && LineStart(p, []) && |Concat(keys, |keys|)| <= keylen
    ensures Run(p, FormatKeys(keys, |keys|), keylen).state in {PARSE_DATA, PARSE_DATA_COMPLETE}
  {
    ReadsKeys(p, keys, |keys|, keylen);
    RunKeepsSafe(p, FormatKeys(keys, |keys|), keylen);
    ConcatNotEmpty(keys, |keys|);
  }

  lemma {:induction false} ConcatNotEmpty(keys: seq<seq<byte>>, n: nat)
    requires 0 < n <= |keys| && keys[0] != []
    ensures Concat(keys, n) != []
  {
    if n > 1 { ConcatNotEmpty(keys, n - 1); }
  }

  // ---- the buffers the printer writes to

  lemma {:induction false} FormatHexLength(data: seq<byte>, n: nat)
    requires n <= |data|
    ensures |FormatHex(data, n)| == 2 * n + if n == 0 then 0 else (n - 1) / BYTES_PER_LINE
  {
    if n > 0 { FormatHexLength(data, n - 1); }
  }

  /** format_hex_ex's buffer keeps at least two characters free, so nothing is cut off or overwritten by
      the mark for truncated output. */
  lemma HexBufferSuffices(data: seq<byte>)
    ensures |FormatHex(data, |data|)| + 2 <= |data| * 2 + |data| / BYTES_PER_LINE + 2
  {
    FormatHexLength(data, |data|);
  }

  lemma {:induction false} FormatKeysLength(keys: seq<seq<byte>>, n: nat)
    requires n <= |keys| && forall k :: k in keys ==> |k| == 128
    ensures |FormatKeys(keys, n)| == 264 * n
  {
    if n > 0 {
      FormatKeysLength(keys, n - 1);
      assert keys[n - 1] in keys;
      FormatHexLength(keys[n - 1], 128);
    }
  }

  lemma PreambleLength(nbits: nat)
    requires nbits < 10000
    ensures |Preamble(nbits)| <= 40
  {
    DecimalLength(nbits);
  }

  /** A file of at most two keys of 128 bytes fits the 2048 bytes of the holding buffer. */
  lemma FileBufferSuffices(keys: seq<seq<byte>>)
    requires 1 <= |keys| <= 2 && forall k :: k in keys ==> |k| == 128
    ensures |PrintKeys(keys, 128)| < 2048
  {
    PreambleLength(|keys| * 128 * 8);
    FormatKeysLength(keys, |keys|);
  }

  lemma DecimalLength(n: nat)
    requires n < 10000
    ensures |Decimal(n)| <= 4
  {
    assert n / 10 < 1000 && n / 10 / 10 < 100 && n / 10 / 10 / 10 < 10;
    assert |Decimal(n / 10 / 10 / 10)| == 1;
    assert |Decimal(n / 10 / 10)| <= 2;
    assert |Decimal(n / 10)| <= 3;
  }

  // ---- the loops

  method FormatHexEx(data: seq<byte>) returns (out: string)
    ensures out == FormatHex(data, |data|)
  {
    out := "";
    for i := 0 to |data|
      invariant out == FormatHex(data, i)
    {
      if i > 0 && i % BYTES_PER_LINE == 0 {
        out := out + "\n";
      }
      out := out + HexByte(data[i]);
    }
  }

  /** The loop over the keys. */
  method AppendKeys(start: string, keys: seq<seq<byte>>) returns (out: string)
    ensures out == start + FormatKeys(keys, |keys|)
  {
    out := start;
    for i := 0 to |keys|
      invariant out == start + FormatKeys(keys, i)
    {
      var fmt := FormatHexEx(keys[i]);
      KeyAppended(start, FormatKeys(keys, i), fmt);
      out := out + (fmt + "\n");
    }
  }

  lemma KeyAppended(start: string, front: string, line: string)
    ensures (start + front) + (line + "\n") == start + (front + line + "\n")
  {}

  method WriteKeyFile(keys: seq<seq<byte>>, onekeylen: nat) returns (out: string)
    ensures out == PrintKeys(keys, onekeylen)
  {
    out := Preamble(|keys| * onekeylen * 8) + (HEAD + "\n");
    out := AppendKeys(out, keys);
    out := out + (FOOT + "\n");
  }

  method CompareLine(state0: State, lineIndex: nat, matched0: nat, c: char) returns (state: State, matched: nat)
    ensures (state, matched) == Compare(state0, lineIndex, matched0, c)
  {
    state, matched := state0, matched0;
    if state == PARSE_INITIAL {
      if lineIndex < |HEAD| && c == HEAD[lineIndex] {
        matched := matched + 1;
        if matched == |HEAD| { state := PARSE_HEAD; }
      }
    }
    if state == PARSE_FOOT {
      if lineIndex < |FOOT| && c == FOOT[lineIndex] {
        matched := matched + 1;
        if matched == |FOOT| { state := PARSE_FINISHED; }
      }
    }
  }

  /** One character of key data; the assertions of the source on `hb_index` and on the room for the key
      are assertions here. */
  method ReadDataChar(state0: State, hexByte0: string, out0: seq<byte>, c: char, keylen: nat, ghost p: Parser)
      returns (state: State, hexByte: string, out: seq<byte>, fatal: bool)
    requires p.state == state0 && p.hexByte == hexByte0 && p.out == out0 && !p.fatal && |out0| <= keylen
    requires |hexByte0| < 2 && (forall d :: d in hexByte0 ==> IsHex(d)) && (state0 == PARSE_DATA ==> |out0| < keylen)
    ensures ReadData(p, c, keylen) == p.(state := state, hexByte := hexByte, out := out, fatal := fatal)
  {
    state, hexByte, out, fatal := state0, hexByte0, out0, false;
    if state == PARSE_DATA {
      if IsHex(c) {
        assert |hexByte| < 2;
        hexByte := hexByte + [c];
        if |hexByte| == 2 {
          assert hexByte[0] in hexByte0;
          assert |out| < keylen;
          out := out + [HexValue(hexByte[0]) * 16 + HexValue(hexByte[1])];
          hexByte := "";
          if |out| == keylen { state := PARSE_DATA_COMPLETE; }
        }
      } else if !IsSpace(c) {
        fatal := true;
      }
    }
  }

  /** Before the data is looked at, the parser is as safe as before. */
  lemma CompareSafe(p: Parser, c: char, keylen: nat)
    requires Safe(p, keylen) && keylen > 0
    ensures var s := Compare(AtLineStart(p.state, p.lineIndex, c), p.lineIndex, p.matched, c).0;
            s == PARSE_DATA ==> |p.out| < keylen
  {}

  /** One round of the loop on the variables of the source. */
  method ReadChar(state0: State, lineIndex0: nat, matched0: nat, hexByte0: string, out0: seq<byte>, c: char,
                  keylen: nat)
      returns (state: State, lineIndex: nat, matched: nat, hexByte: string, out: seq<byte>, fatal: bool)
    requires Safe(Parser(state0, lineIndex0, matched0, hexByte0, out0, false), keylen) && keylen > 0
    ensures Parser(state, lineIndex, matched, hexByte, out, fatal) ==
            Step(Parser(state0, lineIndex0, matched0, hexByte0, out0, false), c, keylen)
  {
    ghost var p := Parser(state0, lineIndex0, matched0, hexByte0, out0, false);
    state, lineIndex, matched, hexByte, out, fatal := state0, lineIndex0, matched0, hexByte0, out0, false;
    if c == '\n' {
      lineIndex, matched := 0, 0;
    } else {
      CompareSafe(p, c, keylen);
      state, matched := CompareLine(AtLineStart(state, lineIndex, c), lineIndex, matched, c);
      ghost var q := p.(state := state, matched := matched);
      state, hexByte, out, fatal := ReadDataChar(state, hexByte, out, c, keylen, q);
      if !fatal { lineIndex := lineIndex + 1; }
    }
  }

  lemma RunPrefix(text: string, i: nat, keylen: nat)
    requires i < |text| && keylen > 0
    ensures Safe(Run(START, text[..i], keylen), keylen)
    ensures Run(START, text[..i + 1], keylen) == Step(Run(START, text[..i], keylen), text[i], keylen)
  {
    RunKeepsSafe(START, text[..i], keylen);
    assert text[..i + 1][..i] == text[..i];
    RunUnfold(START, text[..i + 1], keylen);
  }

  lemma RunFatal(text: string, i: nat, keylen: nat)
    requires i <= |text| && Run(START, text[..i], keylen).fatal
    ensures Run(START, text, keylen) == Run(START, text[..i], keylen)
  {
    FatalStays(Run(START, text[..i], keylen), text[i..], keylen);
    RunConcat(START, text[..i], text[i..], keylen);
    assert text[..i] + text[i..] == text;
  }

  /** read_key_file: the loop, then the checks on its outcome. */
  method ReadKeyFile(file: string, inline: bool, mustSucceed: bool, onekeylen: nat)
      returns (out: seq<byte>, n: nat, fatal: bool)
    requires onekeylen > 0
    ensures var p := Run(START, Input(file, inline), 2 * onekeylen);
            out == p.out && n == |out| / onekeylen <= 2 && fatal == Fails(p, onekeylen, mustSucceed)
  {
    var text := if inline then file + "\0" else file;
    var state;
    state, out, n, fatal := ReadChars(text, onekeylen);
    if !fatal && mustSucceed {
      if n == 0 {
        fatal := true;
      }
      if state != PARSE_FINISHED {
        fatal := true;
      }
    }
  }

  /** The character loop; a fatal character ends it. */
  method ReadLoop(text: string, keylen: nat) returns (state: State, out: seq<byte>, fatal: bool)
    requires keylen > 0
    ensures var p := Run(START, text, keylen); state == p.state && out == p.out && fatal == p.fatal
  {
    var lineIndex: nat, matched: nat, hexByte := 0, 0, "";
    state, out, fatal := PARSE_INITIAL, [], false;
    var i := 0;
    while i < |text| && !fatal
      invariant i <= |text| && Parser(state, lineIndex, matched, hexByte, out, fatal) == Run(START, text[..i], keylen)
    {
      RunPrefix(text, i, keylen);
      state, lineIndex, matched, hexByte, out, fatal :=
        ReadChar(state, lineIndex, matched, hexByte, out, text[i], keylen);
      i := i + 1;
    }
    RunEnd(text, i, keylen);
  }

  lemma RunEnd(text: string, i: nat, keylen: nat)
    requires i <= |text| && (i == |text| || Run(START, text[..i], keylen).fatal)
    ensures Run(START, text, keylen) == Run(START, text[..i], keylen)
  {
    if i == |text| { assert text[..i] == text; } else { RunFatal(text, i, keylen); }
  }

  method ReadChars(text: string, onekeylen: nat) returns (state: State, out: seq<byte>, n: nat, fatal: bool)
    requires onekeylen > 0
    ensures var p := Run(START, text, 2 * onekeylen);
            state == p.state && out == p.out && fatal == p.fatal && n == |out| / onekeylen <= 2
  {
    state, out, fatal := ReadLoop(text, 2 * onekeylen);
    n := |out| / onekeylen;
    RunSafe(text, onekeylen);
  }

  lemma {:induction false} FatalStays(p: Parser, text: string, keylen: nat)
    requires p.fatal
    ensures Run(p, text, keylen) == p
  {
    if text != "" { FatalStays(p, text[..|text| - 1], keylen); }
  }
}
