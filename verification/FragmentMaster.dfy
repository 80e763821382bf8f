/** The object that fragment.c updates in place, proved against the functions of Fragmentation and
    Reassembly. */
module FragmentMaster {
  import opened Basics
  import opened Fragmentation
  import opened Reassembly

  class FragmentMaster {
    const p: Params
    // incoming fragment list
    var fragments: seq<Slot>
    var index: nat
    var seqId: nat
    // the datagram being sent
    var outgoing: seq<byte>
    var outgoingFragSize: nat
    var outgoingSeqId: nat
    var outgoingFragId: nat

    ghost predicate Valid()
      reads this
    {
      p.Valid() && ValidList(p, List()) && outgoingSeqId < p.nSeqId
    }

    ghost function List(): FragmentList
      reads this
    {
      FragmentList(fragments, index, seqId)
    }

    ghost function Sending(): Sender
      reads this
    {
      Sender(outgoing, outgoingFragSize, outgoingSeqId, outgoingFragId)
    }

    /** fragment_init clears everything but the outgoing sequence id, which is random. */
    constructor (p: Params, outgoingSeqId: nat)
      requires p.Valid() && outgoingSeqId < p.nSeqId
      ensures Valid() && this.p == p && Sending() == Sender([], 0, outgoingSeqId, 0)
      ensures forall id: nat :: Entry(p, List(), id) == None
    {
      this.p := p;
      fragments := seq(p.nFragBuf, _ => Slot(false, 0, NoFragments(p), seq(p.room, _ => 0), 0));
      index, seqId := 0, 0;
      outgoing, outgoingFragSize, this.outgoingSeqId, outgoingFragId := [], 0, outgoingSeqId, 0;
    }

    method UndefineAll()
      requires Valid()
      modifies this`fragments
      ensures |fragments| == p.nFragBuf
      ensures forall k :: 0 <= k < p.nFragBuf ==> fragments[k] == Undefine(old(fragments)[k])
    {
      for i := 0 to p.nFragBuf
        invariant |fragments| == p.nFragBuf
        invariant forall k :: 0 <= k < p.nFragBuf ==>
          fragments[k] == if k < i then Undefine(old(fragments)[k]) else old(fragments)[k]
      {
        fragments := fragments[i := Undefine(fragments[i])];
      }
    }

    method GetBuf(id: nat) returns (slot: nat)
      requires Valid() && id < p.nSeqId
      modifies this`fragments, this`index, this`seqId
      ensures Valid()
      ensures (List(), slot) == Fragmentation.GetBuf(p, old(List()), id)
    {
      var diff := ModuloSubtract(id, seqId, p.nSeqId);
      if Abs(diff) >= p.nFragBuf {
        UndefineAll();
        index := 0;
        seqId := id;
        diff := 0;
        assert List() == Reset(p, old(List()), id);
      }
      ghost var start, behind := List(), diff;
      while diff > 0
        modifies this`fragments, this`index, this`seqId
        invariant Valid() && 0 - p.nFragBuf < diff <= behind
        invariant if behind < 0 then diff == behind && List() == start
                  else diff >= 0 && SlideBy(p, List(), diff) == SlideBy(p, start, behind)
      {
        index := ModuloAdd(index, 1, p.nFragBuf);
        fragments := fragments[index := Undefine(fragments[index])];
        seqId := ModuloAdd(seqId, 1, p.nSeqId);
        diff := diff - 1;
      }
      slot := ModuloAdd(index, diff, p.nFragBuf);
    }

    method Incoming(buf: seq<byte>) returns (outcome: Outcome)
      requires Valid()
      modifies this`fragments, this`index, this`seqId
      ensures Valid()
      ensures (List(), outcome) == Receive(p, old(List()), buf)
    {
      if |buf| == 0 { return Nothing; }
      if |buf| < 4 { return Error; }
      var flags := FlagsOf(buf);
      var h := UnpackFlags(p, flags);
      var payload := buf[4..];
      if h.fragType == FRAG_WHOLE {
        var masks := if p.nSeqId > p.maxFrags then p.nSeqId else p.maxFrags;
        if flags % masks != 0 { return Error; }
        return Datagram(payload);
      } else if h.fragType == FRAG_YES_NOTLAST || h.fragType == FRAG_YES_LAST {
        var size := IncomingSize(p, h, payload);
        var k := GetBuf(h.seqId);
        if size % p.sizeRound != 0 { return Error; }
        outcome := JoinFragment(k, h, size, payload);
      } else {
        return Error;
      }
    }

    method JoinFragment(k: nat, h: Header, size: nat, payload: seq<byte>) returns (outcome: Outcome)
      requires Valid() && k < p.nFragBuf
      modifies this`fragments
      ensures var (slot, o) := Assemble(p, old(fragments[k]), h, size, payload);
              fragments == old(fragments)[k := slot] && outcome == o
    {
      if !fragments[k].defined || fragments[k].maxFragSize != size {
        fragments := fragments[k := Slot(true, size, NoFragments(p), fragments[k].mem, 0)];
      }
      var at := h.fragId * size;
      if at + |payload| > p.room { return Error; }
      fragments := fragments[k := Join(p, fragments[k], h, at, payload)];
      if forall i :: 0 <= i < p.maxFrags ==> fragments[k].received[i] {
        outcome := Datagram(fragments[k].mem[..fragments[k].len]);
        fragments := fragments[k := Undefine(fragments[k])];
      } else {
        outcome := Nothing;
      }
    }

    method ReadyToSend() returns (ready: bool, buf: seq<byte>)
      requires Valid()
      modifies this`outgoing, this`outgoingFragId
      ensures Valid() && ready == (old(outgoing) != [])
      ensures if ready then (Sending(), buf) == Reassembly.ReadyToSend(p, old(Sending()))
              else Sending() == old(Sending())
    {
      if outgoing == [] { return false, []; }
      var size, last := outgoingFragSize, false;
      if |outgoing| <= size {
        size, last := |outgoing|, true;
      }
      buf := outgoing[..size];
      outgoing := outgoing[size..];
      buf := PrependFlags(p, if last then FRAG_YES_LAST else FRAG_YES_NOTLAST, outgoingSeqId, outgoingFragId,
                          outgoingFragSize, buf);
      outgoingFragId := outgoingFragId + 1;
      ready := true;
    }

    method Outgoing(buf: seq<byte>, maxFragmentSize: nat) returns (out: seq<byte>)
      requires Valid() && RoundDown(maxFragmentSize, p.sizeRound) > 0
      modifies this`outgoing, this`outgoingFragSize, this`outgoingSeqId, this`outgoingFragId
      ensures Valid()
      ensures (Sending(), out) == Reassembly.Outgoing(p, old(Sending()), buf, maxFragmentSize)
    {
      if |buf| == 0 { return []; }
      if |buf| > maxFragmentSize {
        OptimalSizeKeepsCount(|buf|, maxFragmentSize, p.sizeRound);
        outgoingFragSize := OptimalFragmentSize(|buf|, maxFragmentSize, p.sizeRound);
        if |buf| > outgoingFragSize * p.maxFrags { return []; }
        outgoing := buf;
        outgoingSeqId := ModuloAdd(outgoingSeqId, 1, p.nSeqId);
        outgoingFragId := 0;
        var ready;
        ready, out := ReadyToSend();
      } else {
        out := PrependFlags(p, FRAG_WHOLE, 0, 0, 0, buf);
      }
    }
  }
}
