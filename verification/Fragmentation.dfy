/** Fragmentation of datagrams and their reassembly behind a sliding window of sequence ids. */
module Fragmentation {

  import opened Basics

  /** The constants of the header files, which are not part of this model, with the relations the code
      relies on. A mask of k bits is given by its range 2^k; `room` is the capacity of a fragment
      buffer behind its headroom. */
  datatype Params = Params(
    typeRange: nat,    // FRAG_TYPE_MASK + 1
    nSeqId: nat,       // N_SEQ_ID == FRAG_SEQ_ID_MASK + 1
    maxFrags: nat,     // MAX_FRAGS == FRAG_ID_MASK + 1 == width of FRAG_MAP_MASK
    sizeRange: nat,    // FRAG_SIZE_MASK + 1
    sizeRound: nat,    // 1 << FRAG_SIZE_ROUND_SHIFT
    nFragBuf: nat,     // N_FRAG_BUF
    room: nat)
  {
    ghost predicate Valid() {
      && typeRange >= 4 && sizeRound > 0 && sizeRange > 0 && maxFrags > 0
      && 0 < nFragBuf && 2 * nFragBuf < nSeqId
    }

    /** All fields fit into the 32-bit header. */
    ghost predicate FlagsFit() {
      typeRange * (nSeqId * (maxFrags * sizeRange)) <= 0x1_0000_0000
    }
  }

  const FRAG_WHOLE: nat := 0
  const FRAG_YES_NOTLAST: nat := 1
  const FRAG_YES_LAST: nat := 2

  // ---- the header: adjacent bit fields of a 32-bit word, in network byte order

  datatype Header = Header(fragType: nat, seqId: nat, fragId: nat, size: nat)

  function PackFlags(p: Params, h: Header): nat {
    h.fragType + p.typeRange * (h.seqId + p.nSeqId * (h.fragId + p.maxFrags * h.size))
  }

  function UnpackFlags(p: Params, flags: nat): (h: Header)
    requires p.Valid()
    ensures HeaderFits(p, h)
  {
    var seqOn := flags / p.typeRange;
    var idOn := seqOn / p.nSeqId;
    Header(flags % p.typeRange, seqOn % p.nSeqId, idOn % p.maxFrags, idOn / p.maxFrags % p.sizeRange)
  }

  ghost predicate HeaderFits(p: Params, h: Header) {
    h.fragType < p.typeRange && h.seqId < p.nSeqId && h.fragId < p.maxFrags && h.size < p.sizeRange
  }

  lemma SmallMultiple(d: nat, k: int)
    requires 0 - d < d * k < d
    ensures k == 0
  {}

  lemma DivModField(low: nat, range: nat, high: nat)
    requires low < range
    ensures (low + range * high) % range == low && (low + range * high) / range == high
  {
    var x := low + range * high;
    var q, r := x / range, x % range;
    assert x == range * q + r;
    assert range * (q - high) == range * q - range * high;
    SmallMultiple(range, q - high);
  }

  lemma UnpackPacked(p: Params, h: Header)
    requires p.Valid() && HeaderFits(p, h)
    ensures UnpackFlags(p, PackFlags(p, h)) == h
  {
    var idOn := h.fragId + p.maxFrags * h.size;
    var seqOn := h.seqId + p.nSeqId * idOn;
    assert PackFlags(p, h) / p.typeRange == seqOn && PackFlags(p, h) % p.typeRange == h.fragType by {
      DivModField(h.fragType, p.typeRange, seqOn);
    }
    assert seqOn / p.nSeqId == idOn && seqOn % p.nSeqId == h.seqId by {
      DivModField(h.seqId, p.nSeqId, idOn);
    }
    assert idOn / p.maxFrags == h.size && idOn % p.maxFrags == h.fragId by {
      DivModField(h.fragId, p.maxFrags, h.size);
    }
    assert h.size % p.sizeRange == h.size by { DivModField(h.size, p.sizeRange, 0); }
  }

  lemma FieldBound(low: nat, range: nat, high: nat, highRange: nat)
    requires low < range && high < highRange
    ensures low + range * high < range * highRange
  {
    assert range * high <= range * (highRange - 1);
  }

  lemma PackedFits(p: Params, h: Header)
    requires p.Valid() && p.FlagsFit() && HeaderFits(p, h)
    ensures PackFlags(p, h) < 0x1_0000_0000
  {
    FieldBound(h.fragId, p.maxFrags, h.size, p.sizeRange);
    FieldBound(h.seqId, p.nSeqId, h.fragId + p.maxFrags * h.size, p.maxFrags * p.sizeRange);
    FieldBound(h.fragType, p.typeRange, h.seqId + p.nSeqId * (h.fragId + p.maxFrags * h.size),
               p.nSeqId * (p.maxFrags * p.sizeRange));
  }

  /** The flags at the head of a packet. */
  function FlagsOf(buf: seq<byte>): nat
    requires |buf| >= 4
  {
    FromNetwork(buf[..4])
  }

  lemma FlagsRoundTrip(flags: nat, rest: seq<byte>)
    requires flags < 0x1_0000_0000
    ensures FlagsOf(ToNetwork(flags, 4) + rest) == flags
  {
    Powers();
    NetworkRoundTrip(flags, 4);
    assert (ToNetwork(flags, 4) + rest)[..4] == ToNetwork(flags, 4);
  }

  // ---- modular helpers of integer.h

  /** `x - y` on the circle of `m` ids, the representative nearest to zero. */
  function ModuloSubtract(x: int, y: int, m: int): int {
    var d1 := x - y;
    var d2 := (if x > y then -m else m) + d1;
    if Abs(d1) > Abs(d2) then d2 else d1
  }

  function Abs(x: int): nat { if x < 0 then -x else x }

  function ModuloAdd(x: int, y: int, m: int): int {
    var sum := x + y;
    if sum >= m then sum - m else if sum < 0 then sum + m else sum
  }

  // ---- reassembly slots and the window over them

  /** A fragment buffer. `received` is the bit map; `mem` the buffer's memory, of which `len` bytes are
      in use. */
  datatype Slot = Slot(defined: bool, maxFragSize: nat, received: seq<bool>, mem: seq<byte>, len: nat)

  datatype FragmentList = FragmentList(fragments: seq<Slot>, index: nat, seqId: nat)

  ghost predicate ValidSlot(p: Params, s: Slot) {
    |s.mem| == p.room && s.len <= p.room && |s.received| == p.maxFrags
  }

  ghost predicate ValidList(p: Params, l: FragmentList) {
    && |l.fragments| == p.nFragBuf && l.index < p.nFragBuf && l.seqId < p.nSeqId
    && forall k :: 0 <= k < |l.fragments| ==> ValidSlot(p, l.fragments[k])
  }

  function Undefine(s: Slot): Slot { s.(defined := false) }

  function Reset(p: Params, l: FragmentList, seqId: nat): FragmentList {
    FragmentList(seq(|l.fragments|, k requires 0 <= k < |l.fragments| => Undefine(l.fragments[k])), 0, seqId)
  }

  /** The window moves on by one id; the slot it wraps onto is invalidated. */
  function Slide(p: Params, l: FragmentList): FragmentList
    requires p.Valid() && ValidList(p, l)
  {
    var index := ModuloAdd(l.index, 1, p.nFragBuf);
    FragmentList(l.fragments[index := Undefine(l.fragments[index])], index, ModuloAdd(l.seqId, 1, p.nSeqId))
  }

  function SlideBy(p: Params, l: FragmentList, diff: nat): (l': FragmentList)
    requires p.Valid() && ValidList(p, l)
    ensures ValidList(p, l')
    decreases diff
  {
    if diff == 0 then l else SlideBy(p, Slide(p, l), diff - 1)
  }

  /** fragment_list_get_buf: the list afterwards and the slot for `seqId`. */
  function GetBuf(p: Params, l: FragmentList, seqId: nat): (r: (FragmentList, nat))
    requires p.Valid() && ValidList(p, l) && seqId < p.nSeqId
    ensures ValidList(p, r.0) && r.1 < p.nFragBuf
  {
    var diff := ModuloSubtract(seqId, l.seqId, p.nSeqId);
    if Abs(diff) >= p.nFragBuf then
      (Reset(p, l, seqId), 0)
    else if diff >= 0 then
      var l' := SlideBy(p, l, diff);
      (l', l'.index)
    else
      (l, ModuloAdd(l.index, diff, p.nFragBuf))
  }

  /** How far `id` is behind the newest id. */
  function Behind(p: Params, l: FragmentList, id: nat): int {
    if id <= l.seqId then l.seqId - id else l.seqId - id + p.nSeqId
  }

  predicate InWindow(p: Params, l: FragmentList, id: nat) {
    id < p.nSeqId && Behind(p, l, id) < p.nFragBuf
  }

  /** The slot that an id of the window owns. */
  function SlotOf(p: Params, l: FragmentList, id: nat): int {
    ModuloAdd(l.index, -Behind(p, l, id), p.nFragBuf)
  }

  /** Distinct ids of the window own distinct slots. */
  lemma SlotsDistinct(p: Params, l: FragmentList, id: nat, other: nat)
    requires p.Valid() && ValidList(p, l)
    requires InWindow(p, l, id) && InWindow(p, l, other) && id != other
    ensures 0 <= SlotOf(p, l, id) < p.nFragBuf
    ensures SlotOf(p, l, id) != SlotOf(p, l, other)
  {}

  /** What the list holds for `id`: the abstract state is this partial map from ids to slots. */
  function Entry(p: Params, l: FragmentList, id: nat): Option<Slot>
    requires p.Valid() && ValidList(p, l)
  {
    if InWindow(p, l, id) && l.fragments[SlotOf(p, l, id)].defined then Some(l.fragments[SlotOf(p, l, id)]) else None
  }

  /** Entries in `l'` are those of `l` for ids in both windows; ids new to the window have none. */
  ghost predicate OnlyForgets(p: Params, l: FragmentList, l': FragmentList)
    requires p.Valid() && ValidList(p, l) && ValidList(p, l')
  {
    forall id: nat :: InWindow(p, l', id) ==>
      if InWindow(p, l, id)
      then SlotOf(p, l', id) == SlotOf(p, l, id) && l'.fragments[SlotOf(p, l, id)] == l.fragments[SlotOf(p, l, id)]
      else Entry(p, l', id) == None
  }

  lemma SlideForgets(p: Params, l: FragmentList)
    requires p.Valid() && ValidList(p, l)
    ensures ValidList(p, Slide(p, l)) && OnlyForgets(p, l, Slide(p, l))
  {
    var l' := Slide(p, l);
    forall id: nat | InWindow(p, l', id)
      ensures if InWindow(p, l, id)
              then SlotOf(p, l', id) == SlotOf(p, l, id)
                && l'.fragments[SlotOf(p, l, id)] == l.fragments[SlotOf(p, l, id)]
              else Entry(p, l', id) == None
    {
      if InWindow(p, l, id) && id != l'.seqId { SlotsDistinct(p, l', id, l'.seqId); }
    }
  }

  lemma ForgetsBoth(p: Params, l: FragmentList, l1: FragmentList, l2: FragmentList)
    requires p.Valid() && ValidList(p, l) && ValidList(p, l1) && ValidList(p, l2)
    requires OnlyForgets(p, l, l1) && OnlyForgets(p, l1, l2)
    requires forall id: nat :: InWindow(p, l, id) && InWindow(p, l2, id) ==> InWindow(p, l1, id)
    ensures OnlyForgets(p, l, l2)
  {}

  lemma {:induction false} SlideByForgets(p: Params, l: FragmentList, diff: nat)
    requires p.Valid() && ValidList(p, l) && diff < p.nFragBuf
    ensures SlideBy(p, l, diff).seqId == ModuloAdd(l.seqId, diff, p.nSeqId)
    ensures OnlyForgets(p, l, SlideBy(p, l, diff))
    decreases diff
  {
    if diff > 0 {
      var l1 := Slide(p, l);
      SlideForgets(p, l);
      SlideByForgets(p, l1, diff - 1);
      ForgetsBoth(p, l, l1, SlideBy(p, l1, diff - 1));
    }
  }

  /** The sliding window: `seqId` gets a place in the window, its slot is the one returned, ids staying
      in the window keep their slots and contents, and ids entering it start without one. */
  lemma GetBufWindow(p: Params, l: FragmentList, seqId: nat)
    requires p.Valid() && ValidList(p, l) && seqId < p.nSeqId
    ensures var (l', slot) := GetBuf(p, l, seqId);
            && InWindow(p, l', seqId) && slot == SlotOf(p, l', seqId)
            && OnlyForgets(p, l, l')
  {
    var diff := ModuloSubtract(seqId, l.seqId, p.nSeqId);
    if Abs(diff) < p.nFragBuf && diff >= 0 {
      SlideByForgets(p, l, diff);
    }
  }

  /** How far `other` is ahead of `id` on the circle of ids. */
  function Ahead(p: Params, id: nat, other: nat): int {
    if id <= other then other - id else other - id + p.nSeqId
  }

  /** An id of the window stays in it exactly when the id asked for is in the window too, or less than the
      number of slots ahead of it. */
  lemma StaysInWindow(p: Params, l: FragmentList, id: nat, other: nat)
    requires p.Valid() && ValidList(p, l) && InWindow(p, l, id) && other < p.nSeqId
    ensures InWindow(p, GetBuf(p, l, other).0, id) <==> InWindow(p, l, other) || Ahead(p, id, other) < p.nFragBuf
  {
    var diff := ModuloSubtract(other, l.seqId, p.nSeqId);
    if 0 <= diff < p.nFragBuf { SlideByForgets(p, l, diff); }
  }
}
