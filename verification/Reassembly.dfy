/** Sending a datagram as fragments and putting the fragments together again: fragment_outgoing,
    fragment_ready_to_send and fragment_incoming, as functions of the state they change. */
module Reassembly {
  import opened Basics
  import opened Fragmentation

  /** What a call leaves in the caller's buffer: nothing, nothing after an error, or a datagram. */
  datatype Outcome = Nothing | Error | Datagram(bytes: seq<byte>)

  // ---- receiving

  function NoFragments(p: Params): seq<bool> {
    seq(p.maxFrags, _ => false)
  }

  /** The bit map with the bit of a fragment set, and all bits from there on for the last one. */
  function MarkReceived(p: Params, received: seq<bool>, h: Header): (r: seq<bool>)
    requires |received| == p.maxFrags
    ensures |r| == p.maxFrags
  {
    seq(p.maxFrags, i requires 0 <= i < p.maxFrags =>
      received[i] || i == h.fragId || (h.fragType == FRAG_YES_LAST && h.fragId <= i))
  }

  /** The slot a fragment is joined to: the first fragment of an id, or one of another size, starts over. */
  function StartSlot(p: Params, slot: Slot, size: nat): (start: Slot)
    requires ValidSlot(p, slot)
    ensures ValidSlot(p, start)
  {
    if !slot.defined || slot.maxFragSize != size then Slot(true, size, NoFragments(p), slot.mem, 0) else slot
  }

  function Join(p: Params, slot: Slot, h: Header, at: nat, payload: seq<byte>): (joined: Slot)
    requires ValidSlot(p, slot) && at + |payload| <= p.room
    ensures ValidSlot(p, joined)
  {
    slot.(
      received := MarkReceived(p, slot.received, h),
      mem := slot.mem[..at] + payload + slot.mem[at + |payload|..],
      len := if at + |payload| > slot.len then at + |payload| else slot.len)
  }

  /** Joining one fragment to the slot of its sequence id. */
  function Assemble(p: Params, slot: Slot, h: Header, size: nat, payload: seq<byte>): (r: (Slot, Outcome))
    requires ValidSlot(p, slot)
    ensures ValidSlot(p, r.0)
  {
    var start := StartSlot(p, slot, size);
    var at := h.fragId * size;
    if at + |payload| > p.room then (start, Error) else
    var joined := Join(p, start, h, at, payload);
    if forall i :: 0 <= i < p.maxFrags ==> joined.received[i]
    then (Undefine(joined), Datagram(joined.mem[..joined.len]))
    else (joined, Nothing)
  }

  function IncomingSize(p: Params, h: Header, payload: seq<byte>): nat {
    if h.fragType == FRAG_YES_LAST then h.size * p.sizeRound else |payload|
  }

  /** fragment_incoming: the list afterwards and what the buffer then holds. */
  function Receive(p: Params, l: FragmentList, buf: seq<byte>): (r: (FragmentList, Outcome))
    requires p.Valid() && ValidList(p, l)
    ensures ValidList(p, r.0)
  {
    if buf == [] then (l, Nothing) else
    if |buf| < 4 then (l, Error) else
    var flags := FlagsOf(buf);
    var h := UnpackFlags(p, flags);
    var payload := buf[4..];
    if h.fragType == FRAG_WHOLE then
      var masks := if p.nSeqId > p.maxFrags then p.nSeqId else p.maxFrags;
      if flags % masks != 0 then (l, Error) else (l, Datagram(payload))
    else if h.fragType == FRAG_YES_NOTLAST || h.fragType == FRAG_YES_LAST then
      var size := IncomingSize(p, h, payload);
      var (l', k) := GetBuf(p, l, h.seqId);
      if size % p.sizeRound != 0 then (l', Error) else
      var (slot, outcome) := Assemble(p, l'.fragments[k], h, size, payload);
      (l'.(fragments := l'.fragments[k := slot]), outcome)
    else (l, Error)
  }

  /** `buf` is a fragment of sequence id `id`. */
  predicate FragmentOf(p: Params, buf: seq<byte>, id: nat)
    requires p.Valid()
  {
    && |buf| >= 4
    && var h := UnpackFlags(p, FlagsOf(buf));
       (h.fragType == FRAG_YES_NOTLAST || h.fragType == FRAG_YES_LAST) && h.seqId == id
  }

  /** Writing the slot of one id leaves the entries of the others alone. */
  lemma UpdateOther(p: Params, l: FragmentList, id: nat, slot: Slot, other: nat)
    requires p.Valid() && ValidList(p, l) && InWindow(p, l, id) && ValidSlot(p, slot) && other != id
    ensures 0 <= SlotOf(p, l, id) < |l.fragments|
    ensures Entry(p, l.(fragments := l.fragments[SlotOf(p, l, id) := slot]), other) == Entry(p, l, other)
  {
    if InWindow(p, l, other) { SlotsDistinct(p, l, id, other); }
  }

  lemma GetBufOther(p: Params, l: FragmentList, id: nat, other: nat)
    requires p.Valid() && ValidList(p, l) && id < p.nSeqId && other < p.nSeqId
    ensures var l' := GetBuf(p, l, id).0;
            Entry(p, l', other) == if InWindow(p, l', other) then Entry(p, l, other) else None
  {
    GetBufWindow(p, l, id);
  }

  /** Packets of other ids leave an id's entry alone for as long as the id stays in the window. */
  lemma ReceiveOther(p: Params, l: FragmentList, buf: seq<byte>, id: nat)
    requires p.Valid() && ValidList(p, l) && id < p.nSeqId && !FragmentOf(p, buf, id)
    ensures var l' := Receive(p, l, buf).0;
            Entry(p, l', id) == if InWindow(p, l', id) then Entry(p, l, id) else None
  {
    if |buf| >= 4 {
      var h := UnpackFlags(p, FlagsOf(buf));
      if h.fragType == FRAG_YES_NOTLAST || h.fragType == FRAG_YES_LAST {
        var (l', k) := GetBuf(p, l, h.seqId);
        GetBufWindow(p, l, h.seqId);
        GetBufOther(p, l, h.seqId, id);
        var size := IncomingSize(p, h, buf[4..]);
        if size % p.sizeRound == 0 {
          UpdateOther(p, l', h.seqId, Assemble(p, l'.fragments[k], h, size, buf[4..]).0, id);
        }
      }
    }
  }

  // ---- sending

  function RoundDown(x: nat, round: nat): nat
    requires round > 0
  {
    x - x % round
  }

  /** optimal_fragment_size; the aligned maximum must be positive, it is divided by. */
  function OptimalFragmentSize(len: nat, maxFragSize: nat, round: nat): nat
    requires round > 0 && RoundDown(maxFragSize, round) > 0
  {
    var aligned := RoundDown(maxFragSize, round);
    var div, mod := len / aligned, len % aligned;
    if div > 0 && mod > 0 && mod < aligned * 3 / 4 then
      var even := RoundDown(maxFragSize - (maxFragSize - mod) / (div + 1) + (round - 1), round);
      if aligned < even then aligned else even
    else aligned
  }

  /** `c` fragments of size `s` are what `len` bytes take: the last one is not empty. */
  ghost predicate Takes(len: nat, s: nat, c: nat) {
    c > 0 && (c - 1) * s < len <= c * s
  }

  function FragmentCount(len: nat, s: nat): nat
    requires s > 0
  {
    (len + s - 1) / s
  }

  lemma CountTakes(len: nat, s: nat)
    requires len > 0 && s > 0
    ensures Takes(len, s, FragmentCount(len, s))
  {
    var c := (len + s - 1) / s;
    var r := (len + s - 1) % s;
    assert len + s - 1 == s * c + r;
    assert c == 0 ==> s * c == 0;
    assert (c - 1) * s == s * c - s;
  }

  lemma TakesUnique(len: nat, s: nat, c: nat, d: nat)
    requires Takes(len, s, c) && Takes(len, s, d)
    ensures c == d
  {
    if c < d { MulMono(c, d - 1, s); }
    if d < c { MulMono(d, c - 1, s); }
  }

  lemma MulMono(a: nat, b: nat, s: nat)
    requires a <= b
    ensures a * s <= b * s
  {}

  lemma MultipleOfRound(x: nat, round: nat)
    requires round > 0
    ensures RoundDown(x, round) % round == 0
    ensures RoundDown(x, round) <= x < RoundDown(x, round) + round
  {
    var q := x / round;
    assert x == round * q + x % round;
    DivModField(0, round, q);
  }

  lemma EvenSizeCovers(m: nat, aligned: nat, mod: nat, div: nat, x: nat)
    requires mod < aligned <= m && x == m - (m - mod) / (div + 1)
    ensures div * aligned + mod <= (div + 1) * x
  {
    var q := (m - mod) / (div + 1);
    assert (m - mod) == (div + 1) * q + (m - mod) % (div + 1);
    assert (div + 1) * x == (div + 1) * m - (div + 1) * q;
    assert (div + 1) * m == div * m + m;
    MulMono(aligned, m, div);
  }

  /** The smaller, more even fragment size is aligned, no larger than the aligned maximum, and never
      changes the number of fragments. */
  lemma OptimalSizeKeepsCount(len: nat, maxFragSize: nat, round: nat)
    requires round > 0 && RoundDown(maxFragSize, round) > 0 && len > 0
    ensures var s := OptimalFragmentSize(len, maxFragSize, round);
            var aligned := RoundDown(maxFragSize, round);
            && s % round == 0 && 0 < s <= aligned
            && FragmentCount(len, s) == FragmentCount(len, aligned)
  {
    var aligned := RoundDown(maxFragSize, round);
    MultipleOfRound(maxFragSize, round);
    if OptimalFragmentSize(len, maxFragSize, round) != aligned {
      var div, mod := OptimalCase(len, maxFragSize, round);
      EvenSize(len, maxFragSize, aligned, round, div, mod);
    }
  }

  lemma OptimalCase(len: nat, m: nat, round: nat) returns (div: nat, mod: nat)
    requires round > 0 && RoundDown(m, round) > 0 && OptimalFragmentSize(len, m, round) != RoundDown(m, round)
    ensures len == RoundDown(m, round) * div + mod && 0 < mod < RoundDown(m, round) <= m
    ensures var even := RoundDown(m - (m - mod) / (div + 1) + (round - 1), round);
            OptimalFragmentSize(len, m, round) == even <= RoundDown(m, round)
  {
    var aligned := RoundDown(m, round);
    div, mod := len / aligned, len % aligned;
    Division(len, aligned);
  }

  lemma Division(x: nat, m: nat)
    requires m > 0
    ensures x == m * (x / m) + x % m && x % m < m
  {}

  /** The size that spreads the bytes evenly, when it is below the aligned maximum. */
  lemma EvenSize(len: nat, m: nat, aligned: nat, round: nat, div: nat, mod: nat)
    requires round > 0 && len == aligned * div + mod && 0 < mod < aligned <= m
    requires RoundDown(m - (m - mod) / (div + 1) + (round - 1), round) <= aligned
    ensures var s := RoundDown(m - (m - mod) / (div + 1) + (round - 1), round);
            s % round == 0 && 0 < s <= aligned && FragmentCount(len, s) == FragmentCount(len, aligned)
  {
    var x := m - (m - mod) / (div + 1);
    MultipleOfRound(x + (round - 1), round);
    EvenSizeCovers(m, aligned, mod, div, x);
    SameCount(len, aligned, mod, div, x, RoundDown(x + (round - 1), round));
  }

  lemma SameCount(len: nat, aligned: nat, mod: nat, div: nat, x: nat, s: nat)
    requires len == aligned * div + mod && 0 < mod < aligned && x <= s <= aligned
             && div * aligned + mod <= (div + 1) * x
    ensures s > 0 && FragmentCount(len, s) == FragmentCount(len, aligned)
  {
    MulMono(x, s, div + 1);
    assert len <= (div + 1) * s;
    assert s == 0 ==> (div + 1) * s == 0;
    MulMono(s, aligned, div);
    assert Takes(len, s, div + 1);
    assert Takes(len, aligned, div + 1) by { assert (div + 1) * aligned == aligned * div + aligned; }
    CountTakes(len, s);
    CountTakes(len, aligned);
    TakesUnique(len, s, FragmentCount(len, s), div + 1);
    TakesUnique(len, aligned, FragmentCount(len, aligned), div + 1);
  }

  /** fragment_prepend_flags: fields are cut to their masks; whole and non-last packets carry no size. */
  function PrependFlags(p: Params, fragType: nat, seqId: nat, fragId: nat, fragSize: nat, buf: seq<byte>): seq<byte>
    requires p.Valid()
  {
    var size := if fragType == FRAG_WHOLE || fragType == FRAG_YES_NOTLAST then 0
      else fragSize / p.sizeRound % p.sizeRange;
    ToNetwork(PackFlags(p, Header(fragType % p.typeRange, seqId % p.nSeqId, fragId % p.maxFrags, size)), 4) + buf
  }

  /** The sender's fields: bytes still to send, fragment size, sequence id and next fragment id. */
  datatype Sender = Sender(outgoing: seq<byte>, fragSize: nat, seqId: nat, fragId: nat)

  /** fragment_ready_to_send, when there is something to send. */
  function ReadyToSend(p: Params, s: Sender): (Sender, seq<byte>)
    requires p.Valid() && s.outgoing != []
  {
    var last := |s.outgoing| <= s.fragSize;
    var size := if last then |s.outgoing| else s.fragSize;
    (s.(outgoing := s.outgoing[size..], fragId := s.fragId + 1),
     PrependFlags(p, if last then FRAG_YES_LAST else FRAG_YES_NOTLAST, s.seqId, s.fragId, s.fragSize,
                  s.outgoing[..size]))
  }

  /** fragment_outgoing: the state afterwards and what the buffer then holds (nothing after an error). */
  function Outgoing(p: Params, s: Sender, buf: seq<byte>, maxFragmentSize: nat): (Sender, seq<byte>)
    requires p.Valid() && RoundDown(maxFragmentSize, p.sizeRound) > 0
  {
    if buf == [] then (s, []) else
    if |buf| > maxFragmentSize then
      var size := OptimalFragmentSize(|buf|, maxFragmentSize, p.sizeRound);
      if |buf| > size * p.maxFrags then (s.(fragSize := size), []) else
      ReadyToSend(p, Sender(buf, size, ModuloAdd(s.seqId, 1, p.nSeqId), 0))
    else (s, PrependFlags(p, FRAG_WHOLE, 0, 0, 0, buf))
  }

  /** All packets the sender still emits, one per call of fragment_ready_to_send. */
  function EmitAll(p: Params, s: Sender): seq<seq<byte>>
    requires p.Valid() && s.fragSize > 0
    decreases |s.outgoing|
  {
    if s.outgoing == [] then [] else
    var (s', packet) := ReadyToSend(p, s);
    [packet] + EmitAll(p, s')
  }

  /** Where fragment `i` of a datagram starts and ends. */
  function Start(len: nat, s: nat, i: nat): nat {
    if i * s < len then i * s else len
  }

  function End(len: nat, s: nat, i: nat): nat {
    Start(len, s, i + 1)
  }

  ghost predicate Sendable(p: Params, d: seq<byte>, s: nat, c: nat)
    requires p.Valid()
  {
    && s > 0 && s % p.sizeRound == 0 && s / p.sizeRound < p.sizeRange
    && |d| <= p.room && Takes(|d|, s, c) && c <= p.maxFrags
  }

  lemma PieceBounds(len: nat, s: nat, c: nat, i: nat)
    requires Takes(len, s, c) && i < c
    ensures Start(len, s, i) == i * s < End(len, s, i) <= len
    ensures i == c - 1 <==> End(len, s, i) == len
    ensures i < c - 1 ==> End(len, s, i) == i * s + s
    ensures End(len, s, i) - i * s <= s
  {
    MulMono(i, c - 1, s);
    assert (i + 1) * s == i * s + s;
    if i < c - 1 { MulMono(i + 1, c - 1, s); }
    assert (c - 1) * s + s == c * s;
  }

  lemma StartMonotone(len: nat, s: nat, i: nat, j: nat)
    requires i <= j
    ensures Start(len, s, i) <= Start(len, s, j) <= len
  {
    MulMono(i, j, s);
  }

  /** The payload of fragment `i`, and the packet that carries it. */
  function Payload(d: seq<byte>, s: nat, i: nat): seq<byte> {
    StartMonotone(|d|, s, i, i + 1);
    d[Start(|d|, s, i)..End(|d|, s, i)]
  }

  function Piece(p: Params, d: seq<byte>, s: nat, c: nat, id: nat, i: nat): seq<byte>
    requires p.Valid()
  {
    PrependFlags(p, if i == c - 1 then FRAG_YES_LAST else FRAG_YES_NOTLAST, id, i, s, Payload(d, s, i))
  }

  /** The sender when fragments before `i` have been sent. */
  function Sending(d: seq<byte>, s: nat, id: nat, i: nat): Sender {
    Sender(d[Start(|d|, s, i)..], s, id, i)
  }

  lemma SendsPiece(p: Params, d: seq<byte>, s: nat, c: nat, id: nat, i: nat)
    requires p.Valid() && Sendable(p, d, s, c) && i < c
    ensures Sending(d, s, id, i).outgoing != []
    ensures ReadyToSend(p, Sending(d, s, id, i)) == (Sending(d, s, id, i + 1), Piece(p, d, s, c, id, i))
  {
    PieceBounds(|d|, s, c, i);
    var a, b := Start(|d|, s, i), End(|d|, s, i);
    assert d[a..][b - a..] == d[b..];
    assert d[a..][..b - a] == d[a..b];
  }

  /** The sender emits the pieces in order and nothing else. */
  /** `packets` are the pieces from `i` on. */
  ghost predicate PiecesFrom(packets: seq<seq<byte>>, p: Params, d: seq<byte>, s: nat, c: nat, id: nat, i: nat)
    requires p.Valid()
  {
    i <= c && |packets| == c - i && forall k: nat :: k < |packets| ==> packets[k] == Piece(p, d, s, c, id, i + k)
  }

  lemma {:induction false} EmitsPieces(p: Params, d: seq<byte>, s: nat, c: nat, id: nat, i: nat)
    requires p.Valid() && Sendable(p, d, s, c) && i <= c
    ensures PiecesFrom(EmitAll(p, Sending(d, s, id, i)), p, d, s, c, id, i)
    decreases c - i
  {
    if i == c {
      PieceBounds(|d|, s, c, c - 1);
    } else {
      SendsPiece(p, d, s, c, id, i);
      EmitsPieces(p, d, s, c, id, i + 1);
      PieceBefore(EmitAll(p, Sending(d, s, id, i + 1)), p, d, s, c, id, i);
    }
  }

  lemma PieceBefore(packets: seq<seq<byte>>, p: Params, d: seq<byte>, s: nat, c: nat, id: nat, i: nat)
    requires p.Valid() && PiecesFrom(packets, p, d, s, c, id, i + 1)
    ensures PiecesFrom([Piece(p, d, s, c, id, i)] + packets, p, d, s, c, id, i)
  {
    var all := [Piece(p, d, s, c, id, i)] + packets;
    forall k: nat | k < |all| ensures all[k] == Piece(p, d, s, c, id, i + k) {
      if k > 0 { assert all[k] == packets[k - 1]; }
    }
  }
}
