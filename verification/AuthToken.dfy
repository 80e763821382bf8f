/** Authentication tokens: generate_auth_token, which renews a token within one session, and
    verify_auth_token. The message authentication code is an arbitrary function with 32-byte values;
    times are seconds as 64-bit numbers. */
module AuthToken {
  import opened Base64
  import opened Basics

  const SESSION_ID_PREFIX: string := "SESS_ID_AT_"
  const SESSION_ID_LEN: nat := 12
  const TOKEN_DATA_LEN: nat := 60
  const UINT64: nat := 0x1_0000_0000_0000_0000
  const TIME_MAX: nat := 0x8000_0000_0000_0000

  type Digest = d: seq<byte> | |d| == 32 witness seq(32, _ => 0)
  type SessionId = s: seq<byte> | |s| == SESSION_ID_LEN witness seq(12, _ => 0)

  /** A time stamp as it stands in a token. */
  type Stamp = b: seq<byte> | |b| == 8 witness seq(8, _ => 0)

  function StampOf(time: nat): Stamp { ToNetwork(time, 8) }

  lemma StampRoundTrip(time: nat)
    requires time < UINT64
    ensures FromNetwork(StampOf(time)) == time
  {
    Powers();
    NetworkRoundTrip(time, 8);
  }

  // ---- tokens

  /** What the token authenticates, besides the user name. */
  function Claims(sessid: SessionId, initial: Stamp, timestamp: Stamp): (c: seq<byte>)
    ensures |c| == 28 && c[..12] == sessid && c[12..20] == initial && c[20..] == timestamp
  {
    sessid + initial + timestamp
  }

  function TokenData(hmac: seq<byte> -> Digest, user: seq<byte>, claims: seq<byte>): (d: seq<byte>)
    requires |claims| == 28
    ensures |d| == TOKEN_DATA_LEN && d[..28] == claims && d[28..] == hmac(user + claims)
  {
    claims + hmac(user + claims)
  }

  function MakeToken(hmac: seq<byte> -> Digest, user: seq<byte>, sessid: SessionId, initial: Stamp,
                     timestamp: Stamp): string {
    SESSION_ID_PREFIX + Encode(TokenData(hmac, user, Claims(sessid, initial, timestamp)))
  }

  lemma TokenShape(data: seq<byte>)
    requires |data| == TOKEN_DATA_LEN
    ensures var s := Encode(data);
            |s| == 80 && s[..16] == Encode(data[..12]) && s[16..28] == Encode(data[12..21])
  {
    EncodeParts(data);
    LengthIs(data[..12], 4);
    LengthIs(data[12..21], 3);
    LengthIs(data[21..], 13);
    ThreeParts(Encode(data), Encode(data[..12]), Encode(data[12..21]), Encode(data[21..]));
  }

  lemma LengthIs(x: seq<byte>, n: nat)
    requires |x| == 3 * n
    ensures |Encode(x)| == 4 * n
  {
    EncodeLength(x);
  }

  lemma EncodeParts(data: seq<byte>)
    requires |data| == TOKEN_DATA_LEN
    ensures Encode(data) == Encode(data[..12]) + (Encode(data[12..21]) + Encode(data[21..]))
  {
    CutInThree(data);
    EncodeThree(data[..12], data[12..21], data[21..]);
  }

  lemma CutInThree(data: seq<byte>)
    requires |data| == TOKEN_DATA_LEN
    ensures data[..12] + (data[12..21] + data[21..]) == data
  {}

  lemma EncodeThree(x: seq<byte>, y: seq<byte>, z: seq<byte>)
    requires |x| % 3 == 0 && |y| % 3 == 0
    ensures Encode(x + (y + z)) == Encode(x) + (Encode(y) + Encode(z))
  {
    EncodeConcat(x, y + z);
    EncodeConcat(y, z);
  }

  lemma ThreeParts(s: string, a: string, b: string, c: string)
    requires s == a + (b + c) && |a| == 16 && |b| == 12 && |c| == 52
    ensures |s| == 80 && s[..16] == a && s[16..28] == b
  {}

  // ---- generating

  /** The client's current token and the first one of its session. */
  datatype Session = Session(token: Option<string>, initial: Option<string>)

  /** Where a session comes from: its id and the time of its first token. */
  datatype Origin = Origin(sessid: SessionId, initial: Stamp)

  /** Session id and initial time stamp read back from the first token; None if a check on them fails. */
  function ReadInitial(token: string): Option<Origin> {
    var start := |SESSION_ID_PREFIX|;
    if |token| < start + 28 then None else
    match Decode(token[start + 16..start + 28], 9)
    case None => None
    case Some(stamp) =>
      if |stamp| != 9 then None else
      match Decode(token[start..start + 16], SESSION_ID_LEN)
      case None => None
      case Some(sessid) => if |sessid| != SESSION_ID_LEN then None else Some(Origin(sessid, stamp[..8]))
  }

  /** generate_auth_token. `random` is the session id drawn for a new session; with `emptyUser` the token
      is made for the empty user name. None stands for a failed assertion. */
  function Generate(hmac: seq<byte> -> Digest, s: Session, user: seq<byte>, emptyUser: bool, now: nat,
                    random: SessionId): Option<Session> {
    var name := if emptyUser then [] else user;
    match s.initial
    case None =>
      var token := MakeToken(hmac, name, random, StampOf(now), StampOf(now));
      Some(Session(Some(token), Some(token)))
    case Some(first) =>
      match ReadInitial(first)
      case None => None
      case Some(Origin(sessid, initial)) =>
        Some(Session(Some(MakeToken(hmac, name, sessid, initial, StampOf(now))), s.initial))
  }

  /** A renewal finds in the first token what was put into it. */
  lemma ReadsInitial(hmac: seq<byte> -> Digest, user: seq<byte>, sessid: SessionId, initial: Stamp, timestamp: Stamp)
    ensures ReadInitial(MakeToken(hmac, user, sessid, initial, timestamp)) == Some(Origin(sessid, initial))
  {
    var data := TokenData(hmac, user, Claims(sessid, initial, timestamp));
    var token := SESSION_ID_PREFIX + Encode(data);
    TokenShape(data);
    assert token[11..27] == Encode(data)[..16];
    assert token[27..39] == Encode(data)[16..28];
    RoundTrip(data[12..21], 9);
    RoundTrip(data[..12], 12);
    assert data[..12] == data[..28][..12];
    assert data[12..21][..8] == data[..28][12..20];
  }

  // ---- verifying

  datatype Flags = Flags(hmacOk: bool, validEmptyUser: bool, expired: bool)
  const REJECTED: Flags := Flags(false, false, false)

  predicate CheckHmac(hmac: seq<byte> -> Digest, decoded: seq<byte>, user: seq<byte>)
    requires |decoded| == TOKEN_DATA_LEN
  {
    hmac(user + decoded[..28]) == decoded[28..]
  }

  /** Expiry of a token, in unsigned 64-bit arithmetic; a lifetime of zero is none. */
  predicate Expired(timestamp: nat, initial: nat, now: nat, renewal: nat, lifetime: nat) {
    || !(timestamp <= now < (timestamp + 2 * renewal) % UINT64)
    || timestamp < initial
    || (lifetime > 0 && now > (initial + lifetime) % UINT64)
  }

  /** The flags of verify_auth_token, and the user name it leaves behind. */
  function Verify(hmac: seq<byte> -> Digest, s: Session, user: seq<byte>, password: string, userPassLen: nat,
                  now: nat, renewal: nat, lifetime: nat): (Flags, seq<byte>)
    requires |SESSION_ID_PREFIX| <= |password|
  {
    match Decode(password[|SESSION_ID_PREFIX|..], userPassLen)
    case None => (REJECTED, user)
    case Some(decoded) =>
      if |decoded| != TOKEN_DATA_LEN then (REJECTED, user) else
      var initial, timestamp := FromNetwork(decoded[12..20]), FromNetwork(decoded[20..28]);
      var own := CheckHmac(hmac, decoded, user);
      if !own && !CheckHmac(hmac, decoded, []) then (REJECTED, user) else
      var name := if own then user else [];
      if s.initial.Some? && !SamePrefix(s.initial.value, password, |SESSION_ID_PREFIX| + 16) then (REJECTED, name) else
      (Flags(true, !own, Expired(timestamp, initial, now, renewal, lifetime)), name)
  }

  predicate SamePrefix(a: string, b: string, n: nat) {
    n <= |a| && n <= |b| && a[..n] == b[..n]
  }

  /** What the checks give: the code is right for the user or for the empty name, and the session is the same. */
  function Outcome(own: bool, empty: bool, same: bool, expired: bool, user: seq<byte>): (Flags, seq<byte>) {
    var name := if own then user else [];
    if !own && !empty then (REJECTED, user)
    else if !same then (REJECTED, name)
    else (Flags(true, !own, expired), name)
  }

  lemma VerifyUnfold(hmac: seq<byte> -> Digest, s: Session, user: seq<byte>, made: seq<byte>, sessid: SessionId,
                     initial: Stamp, timestamp: Stamp, userPassLen: nat, now: nat, renewal: nat, lifetime: nat)
    requires userPassLen >= TOKEN_DATA_LEN
    ensures |SESSION_ID_PREFIX| <= |MakeToken(hmac, made, sessid, initial, timestamp)|
    ensures var password := MakeToken(hmac, made, sessid, initial, timestamp);
            var claims := Claims(sessid, initial, timestamp);
            Verify(hmac, s, user, password, userPassLen, now, renewal, lifetime) ==
            Outcome(hmac(user + claims) == hmac(made + claims), hmac(claims) == hmac(made + claims),
                    s.initial.None? || SamePrefix(s.initial.value, password, |SESSION_ID_PREFIX| + 16),
                    Expired(FromNetwork(timestamp), FromNetwork(initial), now, renewal, lifetime), user)
  {
    var claims := Claims(sessid, initial, timestamp);
    var data := TokenData(hmac, made, claims);
    var password := MakeToken(hmac, made, sessid, initial, timestamp);
    assert password[|SESSION_ID_PREFIX|..] == Encode(data);
    RoundTrip(data, userPassLen);
    assert data[12..20] == data[..28][12..20] == initial;
    assert data[20..28] == data[..28][20..] == timestamp;
    assert [] + claims == claims;
  }

  /** The part of a token that verify_auth_token compares depends on the session id alone. */
  lemma SessionPart(hmac: seq<byte> -> Digest, user: seq<byte>, sessid: SessionId, initial: Stamp, timestamp: Stamp)
    ensures var token := MakeToken(hmac, user, sessid, initial, timestamp);
            |token| == 91 && token[..27] == SESSION_ID_PREFIX + Encode(sessid)
  {
    var data := TokenData(hmac, user, Claims(sessid, initial, timestamp));
    TokenShape(data);
    assert data[..12] == data[..28][..12] == sessid;
    assert (SESSION_ID_PREFIX + Encode(data))[..27] == SESSION_ID_PREFIX + Encode(data)[..16];
  }

  /** A token of the session is accepted from its own user, or from any user if it was made for the empty
      user name, and expires exactly outside its renewal window or past the session's lifetime. */
  lemma OwnTokenVerified(hmac: seq<byte> -> Digest, s: Session, user: seq<byte>, made: seq<byte>, sessid: SessionId,
                         initial: nat, timestamp: nat, userPassLen: nat, now: nat, renewal: nat, lifetime: nat,
                         firstUser: seq<byte>, firstInitial: Stamp, firstStamp: Stamp)
    requires userPassLen >= TOKEN_DATA_LEN && (made == user || made == [])
    requires initial <= timestamp < TIME_MAX && now < TIME_MAX && 2 * renewal < TIME_MAX && lifetime < TIME_MAX
    requires s.initial == None || s.initial == Some(MakeToken(hmac, firstUser, sessid, firstInitial, firstStamp))
    ensures var password := MakeToken(hmac, made, sessid, StampOf(initial), StampOf(timestamp));
            && |SESSION_ID_PREFIX| <= |password|
            && var (flags, name) := Verify(hmac, s, user, password, userPassLen, now, renewal, lifetime);
               && flags.hmacOk
               && (made == user ==> !flags.validEmptyUser)
               && (name == if flags.validEmptyUser then [] else user)
               && (flags.expired <==>
                     || !(timestamp <= now < timestamp + 2 * renewal)
                     || (lifetime > 0 && now > initial + lifetime))
  {
    VerifyUnfold(hmac, s, user, made, sessid, StampOf(initial), StampOf(timestamp), userPassLen, now, renewal,
                 lifetime);
    if s.initial.Some? {
      SamePart(hmac, sessid, made, StampOf(initial), StampOf(timestamp), firstUser, firstInitial, firstStamp);
    }
    var claims := Claims(sessid, StampOf(initial), StampOf(timestamp));
    assert [] + claims == claims;
    ExpiryExact(timestamp, initial, now, renewal, lifetime);
  }

  lemma SamePart(hmac: seq<byte> -> Digest, sessid: SessionId, user: seq<byte>, initial: Stamp, timestamp: Stamp,
                 firstUser: seq<byte>, firstInitial: Stamp, firstStamp: Stamp)
    ensures SamePrefix(MakeToken(hmac, firstUser, sessid, firstInitial, firstStamp),
                       MakeToken(hmac, user, sessid, initial, timestamp), |SESSION_ID_PREFIX| + 16)
  {
    SessionPart(hmac, user, sessid, initial, timestamp);
    SessionPart(hmac, firstUser, sessid, firstInitial, firstStamp);
  }

  lemma ExpiryExact(timestamp: nat, initial: nat, now: nat, renewal: nat, lifetime: nat)
    requires initial <= timestamp < TIME_MAX && now < TIME_MAX && 2 * renewal < TIME_MAX && lifetime < TIME_MAX
    ensures Expired(FromNetwork(StampOf(timestamp)), FromNetwork(StampOf(initial)), now, renewal, lifetime) <==>
            !(timestamp <= now < timestamp + 2 * renewal) || (lifetime > 0 && now > initial + lifetime)
  {
    StampRoundTrip(initial);
    StampRoundTrip(timestamp);
    NoWrap(timestamp, 2 * renewal);
    NoWrap(initial, lifetime);
  }

  lemma NoWrap(x: nat, y: nat)
    requires x < TIME_MAX && y < TIME_MAX
    ensures (x + y) % UINT64 == x + y
  {}

  /** A token with another session id is rejected, however it was made. */
  lemma ForeignSessionRejected(hmac: seq<byte> -> Digest, s: Session, user: seq<byte>, made: seq<byte>,
                               sessid: SessionId, other: SessionId, initial: Stamp, timestamp: Stamp, userPassLen: nat,
                               now: nat, renewal: nat, lifetime: nat,
                               firstUser: seq<byte>, firstInitial: Stamp, firstStamp: Stamp)
    requires userPassLen >= TOKEN_DATA_LEN && other != sessid
    requires s.initial == Some(MakeToken(hmac, firstUser, sessid, firstInitial, firstStamp))
    ensures var password := MakeToken(hmac, made, other, initial, timestamp);
            && |SESSION_ID_PREFIX| <= |password|
            && Verify(hmac, s, user, password, userPassLen, now, renewal, lifetime).0 == REJECTED
  {
    VerifyUnfold(hmac, s, user, made, other, initial, timestamp, userPassLen, now, renewal, lifetime);
    SessionPart(hmac, made, other, initial, timestamp);
    SessionPart(hmac, firstUser, sessid, firstInitial, firstStamp);
    PartsDiffer(sessid, other);
  }

  lemma PartsDiffer(sessid: SessionId, other: SessionId)
    requires other != sessid
    ensures SESSION_ID_PREFIX + Encode(sessid) != SESSION_ID_PREFIX + Encode(other)
  {
    RoundTrip(other, -1);
    RoundTrip(sessid, -1);
    assert (SESSION_ID_PREFIX + Encode(other))[11..] == Encode(other);
    assert (SESSION_ID_PREFIX + Encode(sessid))[11..] == Encode(sessid);
  }

  // ---- whole sessions

  /** One call of generate_auth_token. */
  datatype Renewal = Renewal(user: seq<byte>, emptyUser: bool, now: nat, random: SessionId) {
    function Name(): seq<byte> { if emptyUser then [] else user }
  }

  function Run(hmac: seq<byte> -> Digest, calls: seq<Renewal>): Option<Session> {
    if calls == [] then Some(Session(None, None)) else
    var m := |calls| - 1;
    match Run(hmac, calls[..m])
    case None => None
    case Some(s) => Generate(hmac, s, calls[m].user, calls[m].emptyUser, calls[m].now, calls[m].random)
  }

  /** Every token of a session, for any number of renewals, carries the first call's session id and time,
      and no assertion of generate_auth_token fails on the way. */
  lemma {:induction false} SessionKept(hmac: seq<byte> -> Digest, calls: seq<Renewal>)
    requires calls != []
    ensures var first, last := calls[0], calls[|calls| - 1];
            Run(hmac, calls) == Some(Session(
              Some(MakeToken(hmac, last.Name(), first.random, StampOf(first.now), StampOf(last.now))),
              Some(MakeToken(hmac, first.Name(), first.random, StampOf(first.now), StampOf(first.now)))))
  {
    var m := |calls| - 1;
    if m == 0 {
      assert calls[..0] == [];
    } else {
      var first := calls[0];
      SessionKept(hmac, calls[..m]);
      ReadsInitial(hmac, first.Name(), first.random, StampOf(first.now), StampOf(first.now));
    }
  }

  ghost predicate Monotone(calls: seq<Renewal>) {
    && (forall i, j :: 0 <= i < j < |calls| ==> calls[i].now <= calls[j].now)
    && (forall i :: 0 <= i < |calls| ==> calls[i].now < TIME_MAX)
  }

  /** The token of call `i`, presented with its own user name at any time after any further renewals. */
  lemma {:induction false} RenewedTokenAccepted(hmac: seq<byte> -> Digest, calls: seq<Renewal>, i: nat,
                                                userPassLen: nat, now: nat, renewal: nat, lifetime: nat)
    requires i < |calls| && Monotone(calls) && userPassLen >= TOKEN_DATA_LEN
    requires now < TIME_MAX && 2 * renewal < TIME_MAX && lifetime < TIME_MAX
    ensures Run(hmac, calls).Some? && Run(hmac, calls[..i + 1]).Some? && Run(hmac, calls[..i + 1]).value.token.Some?
    ensures var s := Run(hmac, calls).value;
            var token := Run(hmac, calls[..i + 1]).value.token.value;
            && |SESSION_ID_PREFIX| <= |token|
            && var (flags, name) := Verify(hmac, s, calls[i].user, token, userPassLen, now, renewal, lifetime);
               && flags.hmacOk && (!calls[i].emptyUser ==> !flags.validEmptyUser && name == calls[i].user)
               && (flags.expired <==>
                     || !(calls[i].now <= now < calls[i].now + 2 * renewal)
                     || (lifetime > 0 && now > calls[0].now + lifetime))
  {
    SessionKept(hmac, calls);
    SessionKept(hmac, calls[..i + 1]);
    var first := calls[0];
    assert first.now <= calls[i].now;
    OwnTokenVerified(hmac, Run(hmac, calls).value, calls[i].user, calls[i].Name(), first.random, first.now,
                     calls[i].now, userPassLen, now, renewal, lifetime, first.Name(), StampOf(first.now),
                     StampOf(first.now));
  }

  // ---- the object the functions update

  class TlsMulti {
    const hmac: seq<byte> -> Digest
    var authToken: Option<string>
    var authTokenInitial: Option<string>
    /** How the first token was made. */
    ghost var firstUser: seq<byte>
    ghost var origin: Origin

    ghost function State(): Session
      reads this
    {
      Session(authToken, authTokenInitial)
    }

    ghost predicate Valid()
      reads this
    {
      authTokenInitial.Some? ==>
        authTokenInitial.value == MakeToken(hmac, firstUser, origin.sessid, origin.initial, origin.initial)
    }

    constructor (hmac: seq<byte> -> Digest)
      ensures Valid() && this.hmac == hmac && State() == Session(None, None)
    {
      this.hmac := hmac;
      authToken, authTokenInitial := None, None;
      firstUser, origin := [], Origin(seq(12, _ => 0), seq(8, _ => 0));
    }

    /** The two decodings of the first token; the assertions on their lengths hold when it can be read. */
    static method ReadOrigin(token: string) returns (initial: seq<byte>, sessid: seq<byte>)
      requires ReadInitial(token).Some?
      ensures ReadInitial(token).value.sessid == sessid && ReadInitial(token).value.initial == initial
    {
      var start := |SESSION_ID_PREFIX|;
      var oldStamp := new byte[9];
      var n := DecodeBuffer(token[start + 16..start + 28], oldStamp, 9);
      assert n == 9;
      initial := oldStamp[..8];
      var oldId := new byte[SESSION_ID_LEN];
      n := DecodeBuffer(token[start..start + 16], oldId, SESSION_ID_LEN);
      assert n == SESSION_ID_LEN;
      sessid := oldId[..];
      assert oldStamp[..9] == oldStamp[..] && oldId[..12] == oldId[..];
    }

    method GenerateAuthToken(user: seq<byte>, emptyUser: bool, now: nat, random: SessionId)
      requires Valid()
      modifies this
      ensures Valid() && Some(State()) == Generate(hmac, old(State()), user, emptyUser, now, random)
    {
      var timestamp := StampOf(now);
      var initial: seq<byte>, sessid: seq<byte> := timestamp, random;
      if authTokenInitial.Some? {
        ReadsInitial(hmac, firstUser, origin.sessid, origin.initial, origin.initial);
        initial, sessid := ReadOrigin(authTokenInitial.value);
      }
      var name := if emptyUser then [] else user;
      authToken := Some(MakeToken(hmac, name, sessid, initial, timestamp));
      if authTokenInitial.None? {
        authTokenInitial := authToken;
        firstUser, origin := name, Origin(random, timestamp);
      }
    }

    static method CheckExpiry(timestamp: nat, initial: nat, now: nat, renewal: nat, lifetime: nat)
        returns (expired: bool)
      ensures expired == Expired(timestamp, initial, now, renewal, lifetime)
    {
      expired := !(timestamp <= now < (timestamp + 2 * renewal) % UINT64);
      if timestamp < initial {
        expired := true;
      }
      if lifetime > 0 && now > (initial + lifetime) % UINT64 {
        expired := true;
      }
    }

    method VerifyAuthToken(user: seq<byte>, password: string, userPassLen: nat, now: nat, renewal: nat, lifetime: nat)
        returns (flags: Flags, name: seq<byte>)
      requires |SESSION_ID_PREFIX| <= |password|
      ensures (flags, name) == Verify(hmac, State(), user, password, userPassLen, now, renewal, lifetime)
    {
      var buffer := new byte[userPassLen];
      var n := DecodeBuffer(password[|SESSION_ID_PREFIX|..], buffer, userPassLen);
      if n != TOKEN_DATA_LEN { return REJECTED, user; }
      var decoded := buffer[..n];
      flags, name := REJECTED, user;
      var initial, timestamp := FromNetwork(decoded[12..20]), FromNetwork(decoded[20..28]);
      if CheckHmac(hmac, decoded, user) {
        flags := flags.(hmacOk := true);
      } else if CheckHmac(hmac, decoded, []) {
        flags := flags.(hmacOk := true, validEmptyUser := true);
        name := [];
      } else {
        return;
      }
      var expired := CheckExpiry(timestamp, initial, now, renewal, lifetime);
      flags := flags.(expired := expired);
      if authTokenInitial.Some? && !SamePrefix(authTokenInitial.value, password, |SESSION_ID_PREFIX| + 16) {
        flags := REJECTED;
      }
    }
  }
}
