/** The round trip: fragments of a datagram, delivered in any order, with repetitions and interleaved
    with other traffic, yield nothing until the last missing one and then the datagram itself. */
module FragmentRoundTrip {
  import opened Basics
  import opened Fragmentation
  import opened Reassembly

  /** Piece `i` of `d` lies in `mem` where it belongs. */
  ghost predicate HasPiece(mem: seq<byte>, d: seq<byte>, s: nat, i: nat) {
    |d| <= |mem| && forall x :: Start(|d|, s, i) <= x < End(|d|, s, i) && x < |d| ==> mem[x] == d[x]
  }

  /** The slot holds exactly the fragments in `got`. */
  ghost predicate Filled(p: Params, slot: Slot, d: seq<byte>, s: nat, c: nat, got: set<nat>) {
    && slot.defined && ValidSlot(p, slot)
    && slot.maxFragSize == s && slot.len <= |d|
    && (forall i :: 0 <= i < p.maxFrags ==> slot.received[i] == Marked(got, c, i))
    && (forall i: nat :: i in got ==> i < c && End(|d|, s, i) <= slot.len && HasPiece(slot.mem, d, s, i))
  }

  /** The last fragment stands for all later ids of the bit map. */
  ghost predicate Marked(got: set<nat>, c: nat, i: nat) {
    i in got || (c - 1 in got && c - 1 <= i)
  }

  /** An id's entry after exactly the fragments in `got` have arrived. */
  ghost predicate Holds(p: Params, e: Option<Slot>, d: seq<byte>, s: nat, c: nat, got: set<nat>) {
    if got == {} then e == None else e.Some? && Filled(p, e.value, d, s, c, got)
  }

  ghost predicate Complete(got: set<nat>, c: nat) {
    forall i: nat :: i < c ==> i in got
  }

  lemma PieceOf(d: seq<byte>, s: nat, c: nat, x: nat) returns (i: nat)
    requires s > 0 && Takes(|d|, s, c) && x < |d|
    ensures i < c && Start(|d|, s, i) <= x < End(|d|, s, i)
  {
    i := x / s;
    assert x == s * i + x % s;
    assert (i + 1) * s == s * i + s;
    if i >= c { MulMono(c, i, s); }
  }

  lemma CompleteIsDatagram(d: seq<byte>, s: nat, c: nat, mem: seq<byte>, len: nat, got: set<nat>)
    requires s > 0 && Takes(|d|, s, c) && Complete(got, c) && |d| <= |mem| && len <= |d|
    requires forall i: nat :: i in got ==> End(|d|, s, i) <= len && HasPiece(mem, d, s, i)
    ensures mem[..len] == d
  {
    PieceBounds(|d|, s, c, c - 1);
    assert c - 1 in got;
    forall x | 0 <= x < |d|
      ensures mem[x] == d[x]
    {
      var i := PieceOf(d, s, c, x);
      assert HasPiece(mem, d, s, i);
    }
  }

  /** Writing piece `i` puts it in place and leaves the other pieces alone. */
  lemma WritePiece(d: seq<byte>, s: nat, c: nat, mem: seq<byte>, i: nat, j: nat)
    requires s > 0 && Takes(|d|, s, c) && i < c && j < c && |d| <= |mem|
    requires j != i ==> HasPiece(mem, d, s, j)
    ensures var payload := Payload(d, s, i);
            i * s + |payload| <= |mem| && HasPiece(mem[..i * s] + payload + mem[i * s + |payload|..], d, s, j)
  {
    PieceBounds(|d|, s, c, i);
    PieceBounds(|d|, s, c, j);
    if j < i { StartMonotone(|d|, s, j + 1, i); }
    if i < j { StartMonotone(|d|, s, i + 1, j); }
  }

  ghost predicate HeaderOf(h: Header, c: nat, i: nat) {
    h.fragId == i < c && h.fragType == if i == c - 1 then FRAG_YES_LAST else FRAG_YES_NOTLAST
  }

  lemma JoinFills(p: Params, start: Slot, d: seq<byte>, s: nat, c: nat, got: set<nat>, h: Header, i: nat)
    requires p.Valid() && Sendable(p, d, s, c) && HeaderOf(h, c, i)
    requires Filled(p, start, d, s, c, got)
    ensures i * s + |Payload(d, s, i)| <= p.room
    ensures Filled(p, Join(p, start, h, i * s, Payload(d, s, i)), d, s, c, got + {i})
  {
    PieceBounds(|d|, s, c, i);
    var joined := Join(p, start, h, i * s, Payload(d, s, i));
    forall j: nat | j in got + {i}
      ensures j < c && End(|d|, s, j) <= joined.len && HasPiece(joined.mem, d, s, j)
    {
      WritePiece(d, s, c, start.mem, i, j);
    }
  }

  lemma AllMarked(p: Params, c: nat, got: set<nat>)
    requires 0 < c <= p.maxFrags && forall i: nat :: i in got ==> i < c
    ensures (forall i: nat :: i < p.maxFrags ==> Marked(got, c, i)) <==> Complete(got, c)
  {
    if forall i: nat :: i < p.maxFrags ==> Marked(got, c, i) {
      forall i: nat | i < c
        ensures i in got
      {
        assert Marked(got, c, i);
      }
    }
  }

  lemma AssemblePiece(p: Params, slot: Slot, d: seq<byte>, s: nat, c: nat, got: set<nat>, h: Header, i: nat)
    requires p.Valid() && Sendable(p, d, s, c) && ValidSlot(p, slot) && HeaderOf(h, c, i)
    requires if slot.defined then got != {} && Filled(p, slot, d, s, c, got) else got == {}
    ensures var (slot', outcome) := Assemble(p, slot, h, s, Payload(d, s, i));
            if Complete(got + {i}, c)
            then outcome == Datagram(d) && !slot'.defined
            else outcome == Nothing && Filled(p, slot', d, s, c, got + {i})
  {
    var start := StartSlot(p, slot, s);
    assert Filled(p, start, d, s, c, got);
    JoinFills(p, start, d, s, c, got, h, i);
    var joined := Join(p, start, h, i * s, Payload(d, s, i));
    AllMarked(p, c, got + {i});
    if Complete(got + {i}, c) {
      CompleteIsDatagram(d, s, c, joined.mem, joined.len, got + {i});
    }
  }

  lemma PieceFlags(p: Params, d: seq<byte>, s: nat, c: nat, id: nat, i: nat) returns (h: Header)
    requires p.Valid() && Sendable(p, d, s, c) && i < c && id < p.nSeqId
    ensures HeaderOf(h, c, i) && HeaderFits(p, h) && h.seqId == id && (i == c - 1 ==> h.size == s / p.sizeRound)
    ensures Piece(p, d, s, c, id, i) == ToNetwork(PackFlags(p, h), 4) + Payload(d, s, i)
  {
    var fragType := if i == c - 1 then FRAG_YES_LAST else FRAG_YES_NOTLAST;
    h := Header(fragType, id, i, if i == c - 1 then s / p.sizeRound else 0);
    SmallModulo(fragType, p.typeRange);
    SmallModulo(id, p.nSeqId);
    SmallModulo(i, p.maxFrags);
    SmallModulo(s / p.sizeRound, p.sizeRange);
  }

  lemma SmallModulo(x: nat, m: nat)
    requires x < m
    ensures x % m == x
  {}

  lemma PieceHeader(p: Params, d: seq<byte>, s: nat, c: nat, id: nat, i: nat)
    requires p.Valid() && p.FlagsFit() && Sendable(p, d, s, c) && i < c && id < p.nSeqId
    ensures var buf := Piece(p, d, s, c, id, i);
            && |buf| >= 4 && buf[4..] == Payload(d, s, i)
            && var h := UnpackFlags(p, FlagsOf(buf));
               HeaderOf(h, c, i) && h.seqId == id && IncomingSize(p, h, buf[4..]) == s
  {
    var buf := Piece(p, d, s, c, id, i);
    var h := PieceFlags(p, d, s, c, id, i);
    assert buf[4..] == Payload(d, s, i);
    assert UnpackFlags(p, FlagsOf(buf)) == h by {
      PackedFits(p, h);
      FlagsRoundTrip(PackFlags(p, h), Payload(d, s, i));
      UnpackPacked(p, h);
    }
    HeaderSize(p, d, s, c, h, i);
  }

  lemma HeaderSize(p: Params, d: seq<byte>, s: nat, c: nat, h: Header, i: nat)
    requires p.sizeRound > 0 && s % p.sizeRound == 0 && Takes(|d|, s, c) && HeaderOf(h, c, i)
    requires i == c - 1 ==> h.size == s / p.sizeRound
    ensures IncomingSize(p, h, Payload(d, s, i)) == s
  {
    PieceBounds(|d|, s, c, i);
    if i == c - 1 { DividesBack(s, p.sizeRound); }
  }

  lemma DividesBack(x: nat, m: nat)
    requires m > 0 && x % m == 0
    ensures x / m * m == x
  {
    assert x == m * (x / m) + x % m;
  }

  /** Receiving fragment `i` when the fragments in `got` have arrived before. */
  lemma ReceivePiece(p: Params, l: FragmentList, d: seq<byte>, s: nat, c: nat, id: nat, got: set<nat>, i: nat)
    requires p.Valid() && p.FlagsFit() && ValidList(p, l) && Sendable(p, d, s, c) && id < p.nSeqId && i < c
    requires Holds(p, Entry(p, l, id), d, s, c, got) && !Complete(got, c)
    ensures var (l', outcome) := Receive(p, l, Piece(p, d, s, c, id, i));
            if Complete(got + {i}, c)
            then outcome == Datagram(d) && Entry(p, l', id) == None
            else outcome == Nothing && Holds(p, Entry(p, l', id), d, s, c, got + {i})
  {
    var buf := Piece(p, d, s, c, id, i);
    PieceHeader(p, d, s, c, id, i);
    var h := UnpackFlags(p, FlagsOf(buf));
    GetBufWindow(p, l, id);
    var (l', k) := GetBuf(p, l, id);
    assert Entry(p, l', id) == Entry(p, l, id);
    AssemblePiece(p, l'.fragments[k], d, s, c, got, h, i);
  }

  // ---- whole runs

  /** What the receiver sees: a fragment of the datagram, or any other packet. */
  datatype Event = Own(i: nat) | Other(buf: seq<byte>)

  function EventPacket(p: Params, d: seq<byte>, s: nat, c: nat, id: nat, e: Event): seq<byte>
    requires p.Valid()
  {
    match e
    case Own(i) => Piece(p, d, s, c, id, i)
    case Other(buf) => buf
  }

  function RunList(p: Params, l: FragmentList, d: seq<byte>, s: nat, c: nat, id: nat,
                   events: seq<Event>): (l': FragmentList)
    requires p.Valid() && ValidList(p, l)
    ensures ValidList(p, l')
  {
    if events == [] then l else
    var m := |events| - 1;
    Receive(p, RunList(p, l, d, s, c, id, events[..m]), EventPacket(p, d, s, c, id, events[m])).0
  }

  function Got(events: seq<Event>): set<nat> {
    if events == [] then {} else
    var m := |events| - 1;
    Got(events[..m]) + if events[m].Own? then {events[m].i} else {}
  }

  /** The other packets are not fragments of this id and do not push it out of the window once one of
      its fragments has arrived. */
  ghost predicate Undisturbed(p: Params, l: FragmentList, d: seq<byte>, s: nat, c: nat, id: nat, events: seq<Event>)
    requires p.Valid() && ValidList(p, l)
  {
    events != [] ==>
      var m := |events| - 1;
      && Undisturbed(p, l, d, s, c, id, events[..m])
      && match events[m]
         case Own(i) => i < c
         case Other(buf) =>
           && !FragmentOf(p, buf, id)
           && (Got(events[..m]) != {} ==> InWindow(p, RunList(p, l, d, s, c, id, events), id))
  }

  lemma {:induction false} RunHolds(p: Params, l: FragmentList, d: seq<byte>, s: nat, c: nat, id: nat,
                                    events: seq<Event>)
    requires p.Valid() && p.FlagsFit() && ValidList(p, l) && Sendable(p, d, s, c) && id < p.nSeqId
    requires Entry(p, l, id) == None && Undisturbed(p, l, d, s, c, id, events)
    requires !Complete(Got(events), c)
    ensures Holds(p, Entry(p, RunList(p, l, d, s, c, id, events), id), d, s, c, Got(events))
  {
    if events != [] {
      var m := |events| - 1;
      var front := events[..m];
      assert !Complete(Got(front), c);
      RunHolds(p, l, d, s, c, id, front);
      var l' := RunList(p, l, d, s, c, id, front);
      match events[m] {
        case Own(i) =>
          ReceivePiece(p, l', d, s, c, id, Got(front), i);
        case Other(buf) =>
          ReceiveOther(p, l', buf, id);
      }
    }
  }

  /** The round trip. From any state that holds nothing of `id`, and as long as the datagram was not
      complete before, a fragment yields the whole datagram if it is the last missing one and nothing
      otherwise. */
  lemma {:induction false} RoundTrip(p: Params, l: FragmentList, d: seq<byte>, s: nat, c: nat, id: nat,
                                     events: seq<Event>, i: nat)
    requires p.Valid() && p.FlagsFit() && ValidList(p, l) && Sendable(p, d, s, c) && id < p.nSeqId && i < c
    requires Entry(p, l, id) == None && Undisturbed(p, l, d, s, c, id, events)
    requires !Complete(Got(events), c)
    ensures Receive(p, RunList(p, l, d, s, c, id, events), Piece(p, d, s, c, id, i)).1 ==
            if Complete(Got(events) + {i}, c) then Datagram(d) else Nothing
  {
    RunHolds(p, l, d, s, c, id, events);
    ReceivePiece(p, RunList(p, l, d, s, c, id, events), d, s, c, id, Got(events), i);
  }

  // ---- a condition on the packets alone

  /** `x` is one of as many ids from `base` on as there are slots. */
  predicate InArc(p: Params, base: nat, x: nat) {
    x < p.nSeqId && Ahead(p, base, x) < p.nFragBuf
  }

  /** Only fragments of ids in the arc, or no fragment at all. */
  predicate PacketInArc(p: Params, buf: seq<byte>, base: nat)
    requires p.Valid()
  {
    forall other: nat | other < p.nSeqId && FragmentOf(p, buf, other) :: InArc(p, base, other)
  }

  ghost predicate EventsInArc(p: Params, c: nat, id: nat, base: nat, events: seq<Event>)
    requires p.Valid()
  {
    forall k :: 0 <= k < |events| ==>
      match events[k]
      case Own(i) => i < c
      case Other(buf) => !FragmentOf(p, buf, id) && PacketInArc(p, buf, base)
  }

  /** Within the arc the newest id is the one that is furthest ahead. */
  lemma NewestInArc(p: Params, l: FragmentList, base: nat, other: nat)
    requires p.Valid() && ValidList(p, l) && base < p.nSeqId && InArc(p, base, l.seqId) && InArc(p, base, other)
    ensures GetBuf(p, l, other).0.seqId == if Ahead(p, base, other) > Ahead(p, base, l.seqId) then other else l.seqId
  {
    var diff := ModuloSubtract(other, l.seqId, p.nSeqId);
    if 0 <= diff < p.nFragBuf { SlideByForgets(p, l, diff); }
  }

  /** The window covers the ids of the arc up to the newest. */
  lemma WindowInArc(p: Params, l: FragmentList, base: nat, id: nat)
    requires p.Valid() && ValidList(p, l) && base < p.nSeqId && InArc(p, base, l.seqId) && InArc(p, base, id)
    ensures InWindow(p, l, id) <==> Ahead(p, base, id) <= Ahead(p, base, l.seqId)
  {}

  /** Where the newest id stands after a packet. */
  lemma ReceiveNewest(p: Params, l: FragmentList, buf: seq<byte>)
    requires p.Valid() && ValidList(p, l)
    ensures var l' := Receive(p, l, buf).0;
            if |buf| >= 4 && FragmentOf(p, buf, UnpackFlags(p, FlagsOf(buf)).seqId)
            then l'.seqId == GetBuf(p, l, UnpackFlags(p, FlagsOf(buf)).seqId).0.seqId
            else l' == l
  {}

  /** The newest id stays in the arc and never goes back in it. */
  lemma ReceiveInArc(p: Params, l: FragmentList, buf: seq<byte>, base: nat)
    requires p.Valid() && ValidList(p, l) && base < p.nSeqId && InArc(p, base, l.seqId) && PacketInArc(p, buf, base)
    ensures var l' := Receive(p, l, buf).0;
            && InArc(p, base, l'.seqId) && Ahead(p, base, l.seqId) <= Ahead(p, base, l'.seqId)
            && forall id: nat :: id < p.nSeqId && FragmentOf(p, buf, id) ==>
                 Ahead(p, base, id) <= Ahead(p, base, l'.seqId)
  {
    ReceiveNewest(p, l, buf);
    if |buf| >= 4 {
      var id := UnpackFlags(p, FlagsOf(buf)).seqId;
      if FragmentOf(p, buf, id) { NewestInArc(p, l, base, id); }
    }
  }

  /** The first own fragment, when the arc starts at the id itself, brings the newest id into the arc. */
  lemma ReceiveOwn(p: Params, l: FragmentList, buf: seq<byte>, id: nat)
    requires p.Valid() && ValidList(p, l) && id < p.nSeqId && FragmentOf(p, buf, id)
    ensures InArc(p, id, Receive(p, l, buf).0.seqId)
  {
    ReceiveNewest(p, l, buf);
    GetBufWindow(p, l, id);
  }

  /** When all fragment ids, the own one and the newest lie in one arc of as many ids as there are slots, no
      packet pushes the own id out. When the arc starts at the own id, the newest need not lie in it. */
  lemma {:induction false} ArcUndisturbed(p: Params, l: FragmentList, d: seq<byte>, s: nat, c: nat, id: nat,
                                          base: nat, events: seq<Event>)
    requires p.Valid() && p.FlagsFit() && ValidList(p, l) && Sendable(p, d, s, c) && base < p.nSeqId
    requires InArc(p, base, id) && (base == id || InArc(p, base, l.seqId)) && EventsInArc(p, c, id, base, events)
    ensures Undisturbed(p, l, d, s, c, id, events)
    ensures var l' := RunList(p, l, d, s, c, id, events);
            && (Got(events) != {} || InArc(p, base, l.seqId) ==> InArc(p, base, l'.seqId))
            && (Got(events) != {} ==> Ahead(p, base, id) <= Ahead(p, base, l'.seqId))
  {
    if events != [] {
      var m := |events| - 1;
      var front := events[..m];
      ArcUndisturbed(p, l, d, s, c, id, base, front);
      var l' := RunList(p, l, d, s, c, id, front);
      match events[m] {
        case Own(i) =>
          OwnInArc(p, l', d, s, c, id, base, i);
        case Other(buf) =>
          if InArc(p, base, l'.seqId) {
            ReceiveInArc(p, l', buf, base);
            WindowInArc(p, Receive(p, l', buf).0, base, id);
          }
      }
    }
  }

  lemma OwnInArc(p: Params, l: FragmentList, d: seq<byte>, s: nat, c: nat, id: nat, base: nat, i: nat)
    requires p.Valid() && p.FlagsFit() && ValidList(p, l) && Sendable(p, d, s, c) && i < c && base < p.nSeqId
    requires InArc(p, base, id) && (base == id || InArc(p, base, l.seqId))
    ensures var l' := Receive(p, l, Piece(p, d, s, c, id, i)).0;
            InArc(p, base, l'.seqId) && Ahead(p, base, id) <= Ahead(p, base, l'.seqId)
  {
    var buf := Piece(p, d, s, c, id, i);
    PieceHeader(p, d, s, c, id, i);
    if base == id {
      ReceiveOwn(p, l, buf, id);
    } else {
      ReceiveInArc(p, l, buf, base);
    }
  }

  /** The round trip for packets alone: fragments of this datagram in any order and with repeats, among
      fragments of the datagrams before and after it, give it back. */
  lemma {:induction false} NearbyRoundTrip(p: Params, l: FragmentList, d: seq<byte>, s: nat, c: nat, id: nat,
                                           base: nat, events: seq<Event>, i: nat)
    requires p.Valid() && p.FlagsFit() && ValidList(p, l) && Sendable(p, d, s, c) && base < p.nSeqId && i < c
    requires InArc(p, base, id) && (base == id || InArc(p, base, l.seqId)) && EventsInArc(p, c, id, base, events)
    requires Entry(p, l, id) == None && !Complete(Got(events), c)
    ensures Receive(p, RunList(p, l, d, s, c, id, events), Piece(p, d, s, c, id, i)).1 ==
            if Complete(Got(events) + {i}, c) then Datagram(d) else Nothing
  {
    ArcUndisturbed(p, l, d, s, c, id, base, events);
    RoundTrip(p, l, d, s, c, id, events, i);
  }

  /** The packets of the round trip are the ones a sender emits: an oversized datagram that does not
      need too many fragments is sent as its pieces, in order. */
  lemma SentPackets(p: Params, sender: Sender, d: seq<byte>, maxFragmentSize: nat)
    requires p.Valid() && RoundDown(maxFragmentSize, p.sizeRound) > 0 && sender.seqId < p.nSeqId
    requires maxFragmentSize < p.sizeRange * p.sizeRound && maxFragmentSize < |d| <= p.room
    ensures var s := OptimalFragmentSize(|d|, maxFragmentSize, p.sizeRound);
            var c := FragmentCount(|d|, s);
            var id := ModuloAdd(sender.seqId, 1, p.nSeqId);
            var (sender', first) := Outgoing(p, sender, d, maxFragmentSize);
            if c > p.maxFrags then first == [] && sender' == sender.(fragSize := s)
            else
              && Sendable(p, d, s, c) && 2 <= c && 0 <= id < p.nSeqId
              && first == Piece(p, d, s, c, id, 0)
              && sender' == Sending(d, s, id, 1)
              && PiecesFrom(EmitAll(p, sender'), p, d, s, c, id, 1)
  {
    var s := OptimalFragmentSize(|d|, maxFragmentSize, p.sizeRound);
    OptimalSizeKeepsCount(|d|, maxFragmentSize, p.sizeRound);
    MultipleOfRound(maxFragmentSize, p.sizeRound);
    var c := FragmentCount(|d|, s);
    CountTakes(|d|, s);
    CountFits(|d|, s, c, p.maxFrags);
    SizeFits(s, p.sizeRound, p.sizeRange);
    if c <= p.maxFrags {
      assert c == 1 ==> c * s == s;
      var id := ModuloAdd(sender.seqId, 1, p.nSeqId);
      assert Sending(d, s, id, 0) == Sender(d, s, id, 0);
      SendsPiece(p, d, s, c, id, 0);
      EmitsPieces(p, d, s, c, id, 1);
    }
  }

  /** A datagram that needs no fragments is sent whole and comes back at once, whatever the receiver holds. */
  lemma WholeRoundTrip(p: Params, l: FragmentList, sender: Sender, d: seq<byte>, maxFragmentSize: nat)
    requires p.Valid() && ValidList(p, l) && RoundDown(maxFragmentSize, p.sizeRound) > 0
    requires 0 < |d| <= maxFragmentSize
    ensures var (sender', packet) := Outgoing(p, sender, d, maxFragmentSize);
            sender' == sender && Receive(p, l, packet) == (l, Datagram(d))
  {
    var packet := Outgoing(p, sender, d, maxFragmentSize).1;
    var h := Header(FRAG_WHOLE, 0, 0, 0);
    assert PackFlags(p, h) == 0;
    FlagsRoundTrip(0, d);
    UnpackPacked(p, h);
    assert packet == ToNetwork(0, 4) + d && packet[4..] == d;
  }

  lemma CountFits(len: nat, s: nat, c: nat, most: nat)
    requires Takes(len, s, c)
    ensures c <= most <==> len <= s * most
  {
    if c <= most { MulMono(c, most, s); } else { MulMono(most, c - 1, s); }
  }

  lemma SizeFits(s: nat, round: nat, range: nat)
    requires round > 0 && s < range * round
    ensures s / round < range
  {
    var q := s / round;
    assert s == round * q + s % round;
    if range <= q { MulMono(range, q, round); }
  }
}
