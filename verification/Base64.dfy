/** Base64 as in base64.c: the encoder writes groups of four characters into a malloced buffer, the
    decoder reads tokens of four. Strings are without their terminating null. */
module Base64 {

  import opened Basics
  import opened Sequences

  /** A-Z, a-z, 0-9, + and /. */
  const CHARS: string := seq(64, i requires 0 <= i < 64 => Char(i))
  const UNSIGNED: int := 0x1_0000_0000
  const DECODE_ERROR: int := 0xffff_ffff

  /** The table's entry for a sextet, by ranges. */
  function Char(i: nat): (c: char)
    requires i < 64
  {
    if i < 26 then 'A' + i as char
    else if i < 52 then 'a' + (i - 26) as char
    else if i < 62 then '0' + (i - 52) as char
    else if i == 62 then '+'
    else '/'
  }

  // ---- encoding

  /** Up to three bytes as one number; missing bytes count as zero. */
  function GroupValue(b: seq<byte>): (c: nat)
    requires 1 <= |b| <= 3
  {
    b[0] as int * 0x1_0000 + (if |b| > 1 then b[1] as int * 0x100 else 0) + (if |b| > 2 then b[2] as int else 0)
  }

  /** The characters of one group. */
  function EncodeGroup(b: seq<byte>): (s: string)
    requires 1 <= |b| <= 3
    ensures |s| == 4
  {
    var c := GroupValue(b);
    [Char(c / 0x4_0000 % 64),
     Char(c / 0x1000 % 64),
     if |b| < 2 then '=' else Char(c / 64 % 64),
     if |b| < 3 then '=' else Char(c % 64)]
  }

  /** The length of the first group. */
  function First(data: seq<byte>): nat {
    if |data| < 3 then |data| else 3
  }

  function Encode(data: seq<byte>): (s: string) {
    if data == [] then [] else EncodeGroup(data[..First(data)]) + Encode(data[First(data)..])
  }

  lemma {:induction false} EncodeUnfold(data: seq<byte>)
    requires data != []
    ensures Encode(data) == EncodeGroup(data[..First(data)]) + Encode(data[First(data)..])
  {}

  lemma GroupsOf(n: nat)
    requires n > 0
    ensures (n + 2) / 3 * 4 == 4 + ((if n < 3 then 0 else n - 3) + 2) / 3 * 4
  {}

  lemma {:induction false} EncodeLength(data: seq<byte>)
    ensures |Encode(data)| == (|data| + 2) / 3 * 4
  {
    if data != [] {
      EncodeLength(data[First(data)..]);
      EncodeUnfold(data);
      GroupsOf(|data|);
    }
  }

  /** Encoding a prefix of whole groups and then the rest is encoding the whole. */
  lemma {:induction false} EncodeConcat(a: seq<byte>, b: seq<byte>)
    requires |a| % 3 == 0
    ensures Encode(a + b) == Encode(a) + Encode(b)
  {
    if a == [] {
      assert a + b == b;
    } else {
      calc {
        Encode(a + b);
        { assert (a + b)[..3] == a[..3] && (a + b)[3..] == a[3..] + b; }
        EncodeGroup(a[..3]) + Encode(a[3..] + b);
        { EncodeConcat(a[3..], b); }
        EncodeGroup(a[..3]) + (Encode(a[3..]) + Encode(b));
        Encode(a) + Encode(b);
      }
    }
  }

  /** Writes one group and pads it if the input ran out: `i` is past the end by the missing bytes. */
  method WriteGroup(buffer: array<char>, len: nat, c: nat, missing: int, ghost group: seq<byte>)
    requires len + 4 <= buffer.Length && 1 <= |group| <= 3 && missing == 3 - |group|
    requires c == GroupValue(group)
    modifies buffer
    ensures buffer[..len + 4] == old(buffer[..len]) + EncodeGroup(group)
  {
    buffer[len] := CHARS[c / 0x4_0000 % 64];
    buffer[len + 1] := CHARS[c / 0x1000 % 64];
    buffer[len + 2] := CHARS[c / 64 % 64];
    buffer[len + 3] := CHARS[c % 64];
    if missing > 0 { buffer[len + 3] := '='; }
    if missing > 1 { buffer[len + 2] := '='; }
    assert buffer[..len] == old(buffer[..len]);
  }

  method ReadGroup(data: seq<byte>, start: nat) returns (c: nat, i: nat)
    requires start < |data|
    ensures i == start + 3 && c == GroupValue(data[start..start + First(data[start..])])
  {
    i := start;
    c := data[i] as int;
    i := i + 1;
    c := c * 256;
    if i < |data| { c := c + data[i] as int; }
    i := i + 1;
    c := c * 256;
    if i < |data| { c := c + data[i] as int; }
    i := i + 1;
  }

  /** What is left of the input at position `i`, which may run past the end. */
  function Rest(data: seq<byte>, i: nat): seq<byte> {
    if i < |data| then data[i..] else []
  }

  method EncodeStep(data: seq<byte>, start: nat, buffer: array<char>, len: nat) returns (i: nat)
    requires start < |data| && len + |Encode(Rest(data, start))| < buffer.Length
    modifies buffer
    ensures i == start + 3 && len + 4 + |Encode(Rest(data, i))| == len + |Encode(Rest(data, start))|
    ensures buffer[..len + 4] + Encode(Rest(data, i)) == old(buffer[..len]) + Encode(Rest(data, start))
  {
    ghost var group := StepUnfold(data, start, buffer[..len]);
    var c;
    c, i := ReadGroup(data, start);
    WriteGroup(buffer, len, c, if i > |data| then i - |data| else 0, group);
  }

  /** One step of the encoder peels off a group. */
  lemma {:induction false} StepUnfold(data: seq<byte>, start: nat, written: string) returns (group: seq<byte>)
    requires start < |data|
    ensures group == data[start..start + First(data[start..])]
    ensures |group| == (if start + 3 > |data| then |data| - start else 3)
    ensures |Encode(Rest(data, start))| == 4 + |Encode(Rest(data, start + 3))|
    ensures written + EncodeGroup(group) + Encode(Rest(data, start + 3)) == written + Encode(Rest(data, start))
  {
    group := data[start..start + First(data[start..])];
    RestUnfold(data, start);
    Associative(written, EncodeGroup(group), Encode(Rest(data, start + 3)));
  }

  lemma {:induction false} RestUnfold(data: seq<byte>, start: nat)
    requires start < |data|
    ensures Encode(Rest(data, start)) ==
            EncodeGroup(data[start..start + First(data[start..])]) + Encode(Rest(data, start + 3))
  {
    var rest := data[start..];
    EncodeUnfold(rest);
    assert data[start..start + First(rest)] == rest[..First(rest)];
    assert Rest(data, start + 3) == rest[First(rest)..];
  }

  /** openvpn_base64_encode. The buffer of `size * 4 / 3 + 4` characters holds the output and its
      terminator; `size * 4` must not overflow an int. */
  method EncodeBuffer(data: seq<byte>) returns (buffer: array<char>, len: nat)
    requires |data| * 4 < 0x8000_0000
    ensures fresh(buffer) && buffer.Length == |data| * 4 / 3 + 4
    ensures len < buffer.Length && buffer[..len] == Encode(data) && buffer[len] == '\0'
  {
    EncodeLength(data);
    buffer := new char[|data| * 4 / 3 + 4](_ => ' ');
    len := 0;
    var i := 0;
    while i < |data|
      invariant len + |Encode(Rest(data, i))| == |Encode(data)| < buffer.Length
      invariant buffer[..len] + Encode(Rest(data, i)) == Encode(data)
      decreases |data| - i
    {
      i := EncodeStep(data, i, buffer, len);
      len := len + 4;
    }
    assert buffer[..len] + Encode([]) == buffer[..len];
    buffer[len] := '\0';
  }

  // ---- decoding

  /** The position of a character in the table, -1 if it has none. */
  function Pos(c: char): (i: int)
    ensures -1 <= i < 64 && (i >= 0 ==> Char(i) == c)
  {
    if 'A' <= c <= 'Z' then (c - 'A') as int
    else if 'a' <= c <= 'z' then (c - 'a') as int + 26
    else if '0' <= c <= '9' then (c - '0') as int + 52
    else if c == '+' then 62
    else if c == '/' then 63
    else -1
  }

  lemma PosChar(i: nat)
    requires i < 64
    ensures Pos(Char(i)) == i && Char(i) != '='
  {}

  method FindPos(c: char) returns (i: int)
    ensures i == Pos(c)
  {
    i := 0;
    while i < 64
      invariant 0 <= i <= 64 && forall k :: 0 <= k < i ==> Char(k) != c
    {
      if CHARS[i] == c {
        PosChar(i);
        return;
      }
      i := i + 1;
    }
    i := -1;
  }

  const PADDING: int := -2

  /** A token's characters: table positions, -1 for an unknown one, PADDING for '='. */
  function Digits(t: string): (d: seq<int>)
    ensures |d| == |t|
  {
    seq(|t|, i requires 0 <= i < |t| => if t[i] == '=' then PADDING else Pos(t[i]))
  }

  /** The loop of token_decode from character `i` on: the word before the markers are put on top of it,
      in unsigned arithmetic, where an unknown character adds -1. */
  datatype Token = Bad | Token(marker: nat, val: nat)

  function Scan(d: seq<int>, i: nat, val: nat, marker: nat): (r: Token)
    requires |d| == 4 && i <= 4 && val < UNSIGNED
    ensures r.Token? ==> r.marker <= 2 && r.val < UNSIGNED
    decreases 4 - i
  {
    if i == 4 then (if marker > 2 then Bad else Token(marker, val)) else
    var shifted := val * 64 % UNSIGNED;
    if d[i] == PADDING then Scan(d, i + 1, shifted, marker + 1)
    else if marker > 0 then Bad
    else Scan(d, i + 1, (shifted + d[i]) % UNSIGNED, marker)
  }

  /** `marker | v` for the two-bit markers. */
  function OrByte(marker: nat, v: nat): nat {
    if marker == 1 && v % 2 == 0 then v + 1
    else if marker == 2 && v / 2 % 2 == 0 then v + 2
    else v
  }

  /** token_decode: `(marker << 24) | val`, or DECODE_ERROR. */
  function TokenDecode(t: string): nat
    requires |t| == 4
  {
    match Scan(Digits(t), 0, 0, 0)
    case Bad => DECODE_ERROR
    case Token(marker, val) => OrByte(marker, val / 0x100_0000) * 0x100_0000 + val % 0x100_0000
  }

  /** The bytes the decoder takes from a token. */
  function TokenBytes(word: nat): (b: seq<byte>)
    ensures 1 <= |b| <= 3
  {
    var marker := word / 0x100_0000 % 256;
    [word / 0x1_0000 % 256] + (if marker < 2 then [word / 0x100 % 256] else []) +
    (if marker < 1 then [word % 256] else [])
  }

  predicate InAlphabet(c: char) {
    c == '=' || Pos(c) >= 0
  }

  /** The bytes of a token, none if it is in error. */
  function TokenValue(t: string): Option<seq<byte>>
    requires |t| == 4
  {
    if TokenDecode(t) == DECODE_ERROR then None else Some(TokenBytes(TokenDecode(t)))
  }

  function RoomAfter(room: int, used: nat): int {
    if room < 0 then room else room - used
  }

  /** openvpn_base64_decode into a buffer with this much room (negative: unlimited); None is -1. */
  function Decode(s: string, room: int): Option<seq<byte>> {
    if s == [] || !InAlphabet(s[0]) then Some([]) else
    if |s| < 4 then None else
    match TokenValue(s[..4])
    case None => None
    case Some(bytes) =>
      if 0 <= room < |bytes| then None else
      match Decode(s[4..], RoomAfter(room, |bytes|))
      case None => None
      case Some(rest) => Some(bytes + rest)
  }

  lemma {:induction false} ScanDigit(d: seq<int>, i: nat, val: nat)
    requires |d| == 4 && i < 4 && val * 64 + 64 <= UNSIGNED && 0 <= d[i] < 64
    ensures Scan(d, i, val, 0) == Scan(d, i + 1, val * 64 + d[i], 0)
  {
    assert val * 64 % UNSIGNED == val * 64 && (val * 64 + d[i]) % UNSIGNED == val * 64 + d[i];
  }

  lemma {:induction false} ScanPadding(d: seq<int>, i: nat, val: nat, marker: nat)
    requires |d| == 4 && i < 4 && val * 64 < UNSIGNED && d[i] == PADDING
    ensures Scan(d, i, val, marker) == Scan(d, i + 1, val * 64, marker + 1)
  {
    assert val * 64 % UNSIGNED == val * 64;
  }

  /** The word of a well-formed token with `missing` padding characters. */
  lemma {:induction false} ScanToken(d: seq<int>, missing: nat)
    requires |d| == 4 && missing <= 2
    requires 0 <= d[0] < 64 && 0 <= d[1] < 64
    requires if missing == 2 then d[2] == PADDING else 0 <= d[2] < 64
    requires if missing >= 1 then d[3] == PADDING else 0 <= d[3] < 64
    ensures var last := if missing >= 1 then 0 else d[3];
            var third := if missing == 2 then 0 else d[2];
            Scan(d, 0, 0, 0) == Token(missing, ((d[0] * 64 + d[1]) * 64 + third) * 64 + last)
  {
    ScanFirst(d);
    ScanLast(d, d[0] * 64 + d[1], missing);
  }

  lemma {:induction false} ScanFirst(d: seq<int>)
    requires |d| == 4 && 0 <= d[0] < 64 && 0 <= d[1] < 64
    ensures Scan(d, 0, 0, 0) == Scan(d, 2, d[0] * 64 + d[1], 0)
  {
    ScanDigit(d, 0, 0);
    ScanDigit(d, 1, d[0]);
  }

  lemma {:induction false} ScanLast(d: seq<int>, two: nat, missing: nat)
    requires |d| == 4 && missing <= 2 && two < 4096
    requires if missing == 2 then d[2] == PADDING else 0 <= d[2] < 64
    requires if missing >= 1 then d[3] == PADDING else 0 <= d[3] < 64
    ensures var last := if missing >= 1 then 0 else d[3];
            var third := if missing == 2 then 0 else d[2];
            Scan(d, 2, two, 0) == Token(missing, (two * 64 + third) * 64 + last)
  {
    if missing == 2 {
      ScanPadding(d, 2, two, 0);
      ScanPadding(d, 3, two * 64, 1);
    } else {
      ScanDigit(d, 2, two);
      if missing == 1 {
        ScanPadding(d, 3, two * 64 + d[2], 0);
      } else {
        ScanDigit(d, 3, two * 64 + d[2]);
      }
    }
  }

  lemma Shift(hi: nat, lo: nat)
    requires lo < 256
    ensures (hi * 256 + lo) / 256 == hi && (hi * 256 + lo) % 256 == lo
  {}

  lemma ShiftTwice(x: nat)
    ensures x / 256 / 256 == x / 0x1_0000 && x / 0x1_0000 / 256 == x / 0x100_0000
  {}

  lemma WordFields(missing: nat, val: nat)
    requires missing <= 2 && val < 0x100_0000
    ensures var word := missing * 0x100_0000 + val;
            && word / 0x100_0000 % 256 == missing && word / 0x1_0000 % 256 == val / 0x1_0000
            && word / 0x100 % 256 == val / 0x100 % 256 && word % 256 == val % 256
  {
    var word := missing * 0x100_0000 + val;
    var z, y, x := val % 256, val / 256 % 256, val / 256 / 256;
    ShiftTwice(val);
    ShiftTwice(word);
    Shift((missing * 256 + x) * 256 + y, z);
    Shift(missing * 256 + x, y);
    Shift(missing, x);
    assert word == ((missing * 256 + x) * 256 + y) * 256 + z;
  }

  lemma WordBytes(missing: nat, val: nat)
    requires missing <= 2 && val < 0x100_0000
    ensures var word := OrByte(missing, val / 0x100_0000) * 0x100_0000 + val % 0x100_0000;
            && word != DECODE_ERROR
            && TokenBytes(word) == [val / 0x1_0000] + (if missing < 2 then [val / 0x100 % 256] else []) +
               (if missing < 1 then [val % 256] else [])
  {
    assert val / 0x100_0000 == 0 && val % 0x100_0000 == val;
    WordFields(missing, val);
  }

  lemma SextetsOf(c: nat)
    requires c < 0x100_0000
    ensures ((c / 0x4_0000 % 64 * 64 + c / 0x1000 % 64) * 64 + c / 64 % 64) * 64 + c % 64 == c
  {}

  lemma BytesOfThree(x: byte, y: byte, z: byte)
    ensures var c := x as int * 0x1_0000 + y as int * 0x100 + z as int;
            c / 0x1_0000 == x && c / 0x100 % 256 == y && c % 256 == z
  {
    var hi := x as int * 256 + y as int;
    Shift(hi, z);
    Shift(x, y);
    ShiftTwice(hi * 256 + z as int);
  }

  lemma BytesOf(b: seq<byte>)
    requires 1 <= |b| <= 3
    ensures var c := GroupValue(b);
            && c < 0x100_0000 && c / 0x1_0000 == b[0]
            && (|b| >= 2 ==> c / 0x100 % 256 == b[1]) && (|b| == 3 ==> c % 256 == b[2])
            && (|b| < 3 ==> c % 64 == 0) && (|b| < 2 ==> c / 64 % 64 == 0)
  {
    var y: byte, z: byte := if |b| > 1 then b[1] else 0, if |b| > 2 then b[2] else 0;
    assert GroupValue(b) == b[0] as int * 0x1_0000 + y as int * 0x100 + z as int;
    BytesOfThree(b[0], y, z);
    LowBits(b[0], y);
  }

  lemma LowBits(x: byte, y: byte)
    ensures (x as int * 0x1_0000 + y as int * 0x100) % 64 == 0 && x as int * 0x1_0000 / 64 % 64 == 0
  {}

  lemma {:induction false} GroupScan(b: seq<byte>)
    requires 1 <= |b| <= 3
    ensures InAlphabet(EncodeGroup(b)[0]) && Scan(Digits(EncodeGroup(b)), 0, 0, 0) == Token(3 - |b|, GroupValue(b))
  {
    var c := GroupValue(b);
    BytesOf(b);
    PosChar(c / 0x4_0000 % 64);
    PosChar(c / 0x1000 % 64);
    PosChar(c / 64 % 64);
    PosChar(c % 64);
    ScanToken(Digits(EncodeGroup(b)), 3 - |b|);
    SextetsOf(c);
  }

  lemma GroupBytes(b: seq<byte>)
    requires 1 <= |b| <= 3
    ensures GroupValue(b) < 0x100_0000
    ensures var (m, c) := (3 - |b|, GroupValue(b));
            b == [c / 0x1_0000] + (if m < 2 then [c / 0x100 % 256] else []) + (if m < 1 then [c % 256] else [])
  {
    BytesOf(b);
  }

  /** A token of the encoder decodes to its group. */
  lemma {:induction false} GroupRoundTrip(b: seq<byte>)
    requires 1 <= |b| <= 3
    ensures TokenValue(EncodeGroup(b)) == Some(b)
  {
    GroupScan(b);
    GroupBytes(b);
    WordBytes(3 - |b|, GroupValue(b));
  }

  lemma EncodedGroup(b: seq<byte>) returns (t: string)
    requires 1 <= |b| <= 3
    ensures t == EncodeGroup(b) && |t| == 4 && InAlphabet(t[0]) && TokenValue(t) == Some(b)
  {
    GroupRoundTrip(b);
    GroupScan(b);
    t := EncodeGroup(b);
  }

  lemma {:induction false} DecodeToken(t: string, s: string, bytes: seq<byte>, room: int)
    requires |t| == 4 && InAlphabet(t[0]) && TokenValue(t) == Some(bytes)
    ensures Decode(t + s, room) ==
            if 0 <= room < |bytes| then None else
            match Decode(s, RoomAfter(room, |bytes|))
            case None => None
            case Some(rest) => Some(bytes + rest)
  {
    assert (t + s)[..4] == t && (t + s)[4..] == s;
  }

  /** Decoding an encoding gives the bytes back whenever they fit, and fails when they do not. */
  lemma {:induction false} RoundTrip(data: seq<byte>, room: int)
    ensures Decode(Encode(data), room) == if 0 <= room < |data| then None else Some(data)
  {
    if data != [] {
      var k := First(data);
      var t := EncodedGroup(data[..k]);
      EncodeUnfold(data);
      DecodeToken(t, Encode(data[k..]), data[..k], room);
      RoundTrip(data[k..], RoomAfter(room, k));
      SplitAt(data, k);
    }
  }

  // ---- the decoder's loops

  /** One character: `val` shifted by six bits and the digit added, or a marker more. */
  method ShiftIn(c: char, val0: nat, marker0: nat) returns (val: nat, marker: nat, ok: bool)
    requires val0 < UNSIGNED
    ensures val < UNSIGNED
    ensures var digit := if c == '=' then PADDING else Pos(c);
            if digit == PADDING then ok && val == val0 * 64 % UNSIGNED && marker == marker0 + 1
            else if marker0 > 0 then !ok
            else ok && val == (val0 * 64 % UNSIGNED + digit) % UNSIGNED && marker == marker0
  {
    val, marker, ok := val0 * 64 % UNSIGNED, marker0, true;
    if c == '=' {
      marker := marker + 1;
    } else if marker > 0 {
      ok := false;
    } else {
      var digit := FindPos(c);
      val := (val + digit) % UNSIGNED;
    }
  }

  lemma ScanStep(d: seq<int>, i: nat, val: nat, marker: nat)
    requires |d| == 4 && i < 4 && val < UNSIGNED
    ensures Scan(d, i, val, marker) ==
            if d[i] == PADDING then Scan(d, i + 1, val * 64 % UNSIGNED, marker + 1)
            else if marker > 0 then Bad
            else Scan(d, i + 1, (val * 64 % UNSIGNED + d[i]) % UNSIGNED, marker)
  {}

  method ScanChars(t: string) returns (ok: bool, val: nat, marker: nat)
    requires |t| == 4
    ensures Scan(Digits(t), 0, 0, 0) == if ok then Token(marker, val) else Bad
  {
    ghost var d := Digits(t);
    val, marker, ok := 0, 0, true;
    for i := 0 to 4
      invariant ok && val < UNSIGNED && Scan(d, 0, 0, 0) == Scan(d, i, val, marker)
    {
      ScanStep(d, i, val, marker);
      val, marker, ok := ShiftIn(t[i], val, marker);
      if !ok { return; }
    }
    ok := marker <= 2;
  }

  method TokenDecodeAt(s: string, p: nat) returns (word: nat)
    requires p < |s|
    ensures word == if p + 4 <= |s| then TokenDecode(s[p..p + 4]) else DECODE_ERROR
  {
    if p + 4 > |s| { return DECODE_ERROR; }
    var ok, val, marker := ScanChars(s[p..p + 4]);
    if !ok { return DECODE_ERROR; }
    word := OrByte(marker, val / 0x100_0000) * 0x100_0000 + val % 0x100_0000;
  }

  /** Stores the bytes of a token from position `q` on, unless they run past the end. */
  method Store(word: nat, data: array<byte>, q: nat, size: int) returns (q': nat, full: bool)
    requires q + 3 <= data.Length || q <= size <= data.Length
    modifies data
    ensures full == (0 <= size < q + |TokenBytes(word)|)
    ensures !full ==> q' == q + |TokenBytes(word)| <= data.Length && data[..q'] == old(data[..q]) + TokenBytes(word)
  {
    var marker := word / 0x100_0000 % 256;
    q' := q;
    if size >= 0 && q' >= size { return q', true; }
    data[q'] := word / 0x1_0000 % 256;
    q' := q' + 1;
    if marker < 2 {
      if size >= 0 && q' >= size { return q', true; }
      data[q'] := word / 0x100 % 256;
      q' := q' + 1;
    }
    if marker < 1 {
      if size >= 0 && q' >= size { return q', true; }
      data[q'] := word % 256;
      q' := q' + 1;
    }
    full := false;
    assert data[..q] == old(data[..q]);
  }

  function Prepend(done: seq<byte>, rest: Option<seq<byte>>): Option<seq<byte>> {
    match rest
    case None => None
    case Some(b) => Some(done + b)
  }

  /** Decoding `t` when its first character is in the alphabet. */
  lemma DecodeHead(t: string, done: seq<byte>, room: int)
    requires |t| >= 4 && InAlphabet(t[0]) && TokenDecode(t[..4]) != DECODE_ERROR
    ensures var bytes := TokenBytes(TokenDecode(t[..4]));
            Prepend(done, Decode(t, room)) ==
            if 0 <= room < |bytes| then None else Prepend(done + bytes, Decode(t[4..], RoomAfter(room, |bytes|)))
  {
    var bytes := TokenBytes(TokenDecode(t[..4]));
    var rest := Decode(t[4..], RoomAfter(room, |bytes|));
    if rest.Some? { Associative(done, bytes, rest.value); }
  }

  lemma DecodeFails(t: string, room: int)
    requires t != "" && InAlphabet(t[0]) && (|t| < 4 || TokenDecode(t[..4]) == DECODE_ERROR)
    ensures Decode(t, room) == None
  {}

  lemma {:induction false} DecodeUnfold(s: string, p: nat, done: seq<byte>, room: int)
    requires p < |s| && InAlphabet(s[p])
    ensures p + 4 > |s| || TokenDecode(s[p..p + 4]) == DECODE_ERROR ==> Decode(s[p..], room) == None
    ensures p + 4 <= |s| && TokenDecode(s[p..p + 4]) != DECODE_ERROR ==>
              var bytes := TokenBytes(TokenDecode(s[p..p + 4]));
              Prepend(done, Decode(s[p..], room)) ==
              if 0 <= room < |bytes| then None else Prepend(done + bytes, Decode(s[p + 4..], RoomAfter(room, |bytes|)))
  {
    var t := s[p..];
    assert p + 4 <= |s| ==> t[..4] == s[p..p + 4] && t[4..] == s[p + 4..];
    if p + 4 > |s| || TokenDecode(s[p..p + 4]) == DECODE_ERROR {
      DecodeFails(t, room);
    } else {
      DecodeHead(t, done, room);
    }
  }

  /** The loop body: one token, or failure. */
  method DecodeStep(s: string, p: nat, data: array<byte>, q: nat, size: int) returns (q': nat, ok: bool)
    requires p < |s| && InAlphabet(s[p]) && size <= data.Length
    requires if size < 0 then q <= p && |s| <= data.Length else q <= size
    modifies data
    ensures !ok ==> Decode(s[p..], RoomAfter(size, q)) == None
    ensures ok ==> p + 4 <= |s| && q < q' <= q + 3 && q' <= data.Length && (size < 0 || q' <= size)
    ensures ok ==> Prepend(data[..q'], Decode(s[p + 4..], RoomAfter(size, q'))) ==
                   Prepend(old(data[..q]), Decode(s[p..], RoomAfter(size, q)))
  {
    DecodeUnfold(s, p, data[..q], RoomAfter(size, q));
    var word := TokenDecodeAt(s, p);
    if word == DECODE_ERROR { return q, false; }
    var full;
    q', full := Store(word, data, q, size);
    ok := !full;
  }

  /** openvpn_base64_decode. With a negative size nothing is checked, so the buffer must be large enough
      for any string of this length. */
  method DecodeBuffer(s: string, data: array<byte>, size: int) returns (r: int)
    requires size <= data.Length && (size < 0 ==> |s| <= data.Length)
    modifies data
    ensures match Decode(s, size)
            case None => r == -1
            case Some(b) => r == |b| <= data.Length && data[..r] == b
  {
    var p: nat, q: nat := 0, 0;
    assert s[0..] == s;
    assert Decode(s, size).Some? ==> [] + Decode(s, size).value == Decode(s, size).value;
    while p < |s| && InAlphabet(s[p])
      invariant p <= |s| && q <= data.Length && (if size < 0 then q <= p else q <= size)
      invariant Decode(s, size) == Prepend(data[..q], Decode(s[p..], RoomAfter(size, q)))
    {
      var ok;
      q, ok := DecodeStep(s, p, data, q, size);
      if !ok { return -1; }
      p := p + 4;
    }
    r := q;
  }
}
