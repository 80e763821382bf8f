/**
 * The queue of packets waiting for a client: a circular array of reference-counted buffers.
 *
 * The first part is the queue as a sequence of slots and what happens to every item over a whole run; the
 * second part is the circular array and the reference counts.
 */
module RingQueue {
  import opened Basics
  import opened Sequences

  /** A queue slot; a slot whose client has gone keeps its place until it is skipped. */
  datatype Slot<T> = Live(item: T, instance: nat) | Dereferenced

  /** The slots that still hold an item. */
  function LiveSlots<T>(s: seq<Slot<T>>): seq<Slot<T>> {
    if s == [] then [] else (if s[0].Live? then [s[0]] else []) + LiveSlots(s[1..])
  }

  /** What is left after the oldest live slot is taken; the dereferenced ones before it go too. */
  function AfterOldest<T>(s: seq<Slot<T>>): (r: seq<Slot<T>>)
    ensures |r| <= |s| && (s != [] ==> |r| < |s|)
  {
    if s == [] then [] else if s[0].Live? then s[1..] else AfterOldest(s[1..])
  }

  function Oldest<T>(s: seq<Slot<T>>): (r: Option<Slot<T>>)
    ensures r.Some? ==> r.value.Live? && r.value in s
  {
    if s == [] then None else if s[0].Live? then Some(s[0]) else Oldest(s[1..])
  }

  /** The slots of client `mi` lose their item. */
  function Forget<T>(s: seq<Slot<T>>, mi: nat): (r: seq<Slot<T>>)
    ensures |r| == |s|
  {
    if s == [] then [] else [ForgetSlot(s[0], mi)] + Forget(s[1..], mi)
  }

  function ForgetSlot<T>(x: Slot<T>, mi: nat): Slot<T> {
    if x.Live? && x.instance == mi then Dereferenced else x
  }

  /** Making room: a full queue loses its oldest live slot. */
  function Room<T>(s: seq<Slot<T>>, capacity: nat): seq<Slot<T>> {
    if |s| == capacity then AfterOldest(s) else s
  }

  // ---- the live items form a first-in, first-out queue

  lemma {:induction false} ExtractIsFifo<T>(s: seq<Slot<T>>)
    ensures LiveSlots(s) == [] <==> Oldest(s) == None
    ensures Oldest(s).Some? ==> LiveSlots(s) == [Oldest(s).value] + LiveSlots(AfterOldest(s))
    ensures Oldest(s).None? ==> AfterOldest(s) == []
  {
    if s != [] && !s[0].Live? {
      ExtractIsFifo(s[1..]);
      assert LiveSlots(s) == LiveSlots(s[1..]);
    }
  }

  /** The live slots of every client but `mi`. */
  function Others<T>(s: seq<Slot<T>>, mi: nat): seq<Slot<T>> {
    if s == [] then [] else (if s[0].Live? && s[0].instance != mi then [s[0]] else []) + Others(s[1..], mi)
  }

  lemma {:induction false} ForgetLive<T>(s: seq<Slot<T>>, mi: nat)
    ensures LiveSlots(Forget(s, mi)) == Others(s, mi)
  {
    if s != [] {
      ForgetLive(s[1..], mi);
      assert Forget(s, mi)[1..] == Forget(s[1..], mi);
    }
  }

  // ---- every run: each item added has one fate, and items leave in the order they came

  datatype Event = Add(instance: nat) | Extract | Dereference(instance: nat)

  /** The item of the event at position k is the number k; `failed` says that an assertion ended the program. */
  datatype History =
    History(queue: seq<Slot<nat>>, extracted: seq<nat>, dropped: seq<nat>, forgotten: seq<nat>, failed: bool)

  /** Full without a live item: an add finds nothing to drop. */
  predicate Stuck(s: seq<Slot<nat>>, capacity: nat) {
    |s| == capacity && Oldest(s).None?
  }

  ghost function Step(h: History, capacity: nat, e: Event, serial: nat): History {
    if h.failed then h
    else match e
      case Add(mi) =>
        if Stuck(h.queue, capacity) then h.(failed := true)
        else
          h.(queue := Room(h.queue, capacity) + [Live(serial, mi)],
             dropped := if |h.queue| == capacity then h.dropped + [Oldest(h.queue).value.item] else h.dropped)
      case Extract =>
        h.(queue := AfterOldest(h.queue),
           extracted := if Oldest(h.queue).Some? then h.extracted + [Oldest(h.queue).value.item] else h.extracted)
      case Dereference(mi) =>
        h.(queue := Forget(h.queue, mi), forgotten := h.forgotten + ItemsOf(h.queue, mi))
  }

  function ItemsOf(s: seq<Slot<nat>>, mi: nat): seq<nat> {
    if s == [] then [] else (if s[0].Live? && s[0].instance == mi then [s[0].item] else []) + ItemsOf(s[1..], mi)
  }

  ghost function Run(capacity: nat, events: seq<Event>): History {
    if events == [] then History([], [], [], [], false)
    else Step(Run(capacity, events[..|events| - 1]), capacity, events[|events| - 1], |events| - 1)
  }

  function Items(s: seq<Slot<nat>>): seq<nat> {
    if s == [] then [] else (if s[0].Live? then [s[0].item] else []) + Items(s[1..])
  }

  predicate Increasing(s: seq<nat>) {
    forall i, j :: 0 <= i < j < |s| ==> s[i] < s[j]
  }

  predicate Below(s: seq<nat>, n: nat) {
    forall i :: 0 <= i < |s| ==> s[i] < n
  }

  function Count(s: seq<nat>, x: nat): nat {
    if s == [] then 0 else (if s[0] == x then 1 else 0) + Count(s[1..], x)
  }

  /** How many times item x has been extracted, dropped, forgotten, or is still queued. */
  function Fates(h: History, x: nat): nat {
    Count(h.extracted, x) + Count(h.dropped, x) + Count(h.forgotten, x) + Count(Items(h.queue), x)
  }

  lemma {:induction false} CountConcat(a: seq<nat>, b: seq<nat>, x: nat)
    ensures Count(a + b, x) == Count(a, x) + Count(b, x)
  {
    if a == [] {
      assert a + b == b;
    } else {
      CountConcat(a[1..], b, x);
      assert (a + b)[1..] == a[1..] + b;
    }
  }

  lemma {:induction false} ItemsConcat(a: seq<Slot<nat>>, b: seq<Slot<nat>>)
    ensures Items(a + b) == Items(a) + Items(b)
  {
    if a == [] {
      assert a + b == b;
    } else {
      ItemsConcat(a[1..], b);
      assert (a + b)[1..] == a[1..] + b;
      Associative(if a[0].Live? then [a[0].item] else [], Items(a[1..]), Items(b));
    }
  }

  lemma {:induction false} ItemsAfterOldest(s: seq<Slot<nat>>)
    ensures Items(s) == (if Oldest(s).Some? then [Oldest(s).value.item] else []) + Items(AfterOldest(s))
  {
    if s != [] && !s[0].Live? {
      ItemsAfterOldest(s[1..]);
      assert Items(s) == Items(s[1..]);
    }
  }

  lemma {:induction false} ItemsForget(s: seq<Slot<nat>>, mi: nat, x: nat)
    ensures Count(Items(s), x) == Count(Items(Forget(s, mi)), x) + Count(ItemsOf(s, mi), x)
  {
    if s != [] {
      ItemsForget(s[1..], mi, x);
      assert Forget(s, mi)[1..] == Forget(s[1..], mi);
      CountConcat(if s[0].Live? then [s[0].item] else [], Items(s[1..]), x);
      var s' := Forget(s, mi);
      CountConcat(if s'[0].Live? then [s'[0].item] else [], Items(s'[1..]), x);
      CountConcat(if s[0].Live? && s[0].instance == mi then [s[0].item] else [], ItemsOf(s[1..], mi), x);
    }
  }

  /** One event gives a new item one fate and leaves the number of fates of the others as it is. */
  lemma StepFates(h: History, capacity: nat, e: Event, serial: nat, x: nat)
    requires !Step(h, capacity, e, serial).failed
    ensures Fates(Step(h, capacity, e, serial), x) == Fates(h, x) + if e.Add? && x == serial then 1 else 0
  {
    var s := h.queue;
    ItemsAfterOldest(s);
    var first := if Oldest(s).Some? then [Oldest(s).value.item] else [];
    CountConcat(first, Items(AfterOldest(s)), x);
    match e {
      case Add(mi) =>
        ItemsConcat(Room(s, capacity), [Live(serial, mi)]);
        CountConcat(Items(Room(s, capacity)), [serial], x);
        assert Items([Live(serial, mi)]) == [serial];
        CountConcat(h.dropped, first, x);
      case Extract =>
        CountConcat(h.extracted, first, x);
        assert h.extracted + [] == h.extracted;
      case Dereference(mi) =>
        ItemsForget(s, mi, x);
        CountConcat(h.forgotten, ItemsOf(s, mi), x);
    }
  }

  /** In the run, a full queue always held a live item when an item was added. */
  ghost predicate NeverStuck(capacity: nat, events: seq<Event>) {
    forall n :: 0 <= n < |events| && events[n].Add? ==> !Stuck(Run(capacity, events[..n]).queue, capacity)
  }

  lemma NeverStuckStep(capacity: nat, events: seq<Event>, m: nat)
    requires |events| == m + 1
    ensures NeverStuck(capacity, events) <==>
            NeverStuck(capacity, events[..m]) && !(events[m].Add? && Stuck(Run(capacity, events[..m]).queue, capacity))
  {
    var front := events[..m];
    forall n | 0 <= n < m
      ensures front[..n] == events[..n] && front[n] == events[n]
    {}
  }

  /** A run ends in the failed assertion exactly when that was not so. */
  lemma {:induction false} FailsExactly(capacity: nat, events: seq<Event>)
    ensures Run(capacity, events).failed <==> !NeverStuck(capacity, events)
  {
    if events != [] {
      var m := |events| - 1;
      FailsExactly(capacity, events[..m]);
      NeverStuckStep(capacity, events, m);
    }
  }

  /** `k` items for client `mi`. */
  function Adds(k: nat, mi: nat): seq<Event> {
    if k == 0 then [] else Adds(k - 1, mi) + [Add(mi)]
  }

  ghost predicate AllOf(s: seq<Slot<nat>>, mi: nat) {
    forall i :: 0 <= i < |s| ==> s[i].Live? && s[i].instance == mi
  }

  lemma {:induction false} AddsFill(capacity: nat, k: nat, mi: nat)
    requires k <= capacity
    ensures var h := Run(capacity, Adds(k, mi));
            |Adds(k, mi)| == k && |h.queue| == k && AllOf(h.queue, mi) && !h.failed
  {
    if k > 0 {
      AddsFill(capacity, k - 1, mi);
      assert Adds(k, mi)[..k - 1] == Adds(k - 1, mi);
    }
  }

  lemma {:induction false} ForgetAll(s: seq<Slot<nat>>, mi: nat)
    requires AllOf(s, mi)
    ensures Oldest(Forget(s, mi)) == None
  {
    if s != [] {
      ForgetAll(s[1..], mi);
      assert Forget(s, mi)[1..] == Forget(s[1..], mi);
    }
  }

  /** The case is real, for every capacity: a queue filled for one client that then goes is full without a
      live item, and the next add fails its assertion. */
  lemma {:induction false} StuckRun(capacity: nat, mi: nat, other: nat)
    ensures Run(capacity, Adds(capacity, mi) + [Dereference(mi), Add(other)]).failed
  {
    var fill := Adds(capacity, mi);
    AddsFill(capacity, capacity, mi);
    var gone := fill + [Dereference(mi)];
    var events := fill + [Dereference(mi), Add(other)];
    assert gone[..capacity] == fill && events[..capacity + 1] == gone;
    ForgetAll(Run(capacity, fill).queue, mi);
    assert Run(capacity, gone).queue == Forget(Run(capacity, fill).queue, mi);
  }

  /** As long as no add has failed, every item added has exactly one fate: extracted, dropped, forgotten or
      still queued. */
  lemma {:induction false} OneFate(capacity: nat, events: seq<Event>, x: nat)
    requires !Run(capacity, events).failed
    ensures Fates(Run(capacity, events), x) == if x < |events| && events[x].Add? then 1 else 0
  {
    if events != [] {
      var n := |events| - 1;
      var front := events[..n];
      OneFate(capacity, front, x);
      StepFates(Run(capacity, front), capacity, events[n], n, x);
    }
  }

  /** Items leave in the order they came: those extracted so far, then those still queued, are in order. */
  ghost predicate InOrder(h: History, n: nat) {
    Increasing(h.extracted + Items(h.queue)) && Below(h.extracted + Items(h.queue), n)
  }

  lemma {:induction false} ItemsForgetSub(a: seq<nat>, s: seq<Slot<nat>>, mi: nat, n: nat)
    requires Increasing(a + Items(s)) && Below(a + Items(s), n)
    ensures Increasing(a + Items(Forget(s, mi))) && Below(a + Items(Forget(s, mi)), n)
    decreases |s|
  {
    if s != [] {
      ItemsHead(a, s, mi);
      var head := if s[0].Live? then [s[0].item] else [];
      if s[0].Live? && s[0].instance == mi {
        DropMiddle(a, s[0].item, Items(s[1..]), n);
        ItemsForgetSub(a, s[1..], mi, n);
      } else {
        ItemsForgetSub(a + head, s[1..], mi, n);
      }
    }
  }

  lemma ItemsHead(a: seq<nat>, s: seq<Slot<nat>>, mi: nat)
    requires s != []
    ensures var head := if s[0].Live? then [s[0].item] else [];
            && a + Items(s) == (a + head) + Items(s[1..])
            && a + Items(Forget(s, mi)) ==
               if s[0].Live? && s[0].instance == mi then a + Items(Forget(s[1..], mi))
               else (a + head) + Items(Forget(s[1..], mi))
  {
    var head := if s[0].Live? then [s[0].item] else [];
    assert Forget(s, mi)[1..] == Forget(s[1..], mi);
    Associative(a, head, Items(s[1..]));
    Associative(a, head, Items(Forget(s[1..], mi)));
    assert [] + Items(Forget(s[1..], mi)) == Items(Forget(s[1..], mi));
  }

  lemma DropMiddle(a: seq<nat>, x: nat, b: seq<nat>, n: nat)
    requires Increasing((a + [x]) + b) && Below((a + [x]) + b, n)
    ensures Increasing(a + b) && Below(a + b, n)
  {
    var s, t := (a + [x]) + b, a + b;
    assert forall i :: 0 <= i < |t| ==> t[i] == s[if i < |a| then i else i + 1];
  }

  lemma StepInOrder(h: History, capacity: nat, e: Event, n: nat)
    requires InOrder(h, n)
    ensures InOrder(Step(h, capacity, e, n), n + 1)
  {
    if h.failed { return; }
    match e {
      case Add(mi) =>
        AddInOrder(h.extracted, h.queue, capacity, mi, n);
      case Extract =>
        ExtractInOrder(h.extracted, h.queue);
      case Dereference(mi) =>
        ItemsForgetSub(h.extracted, h.queue, mi, n);
    }
  }

  lemma ExtractInOrder(a: seq<nat>, s: seq<Slot<nat>>)
    ensures (if Oldest(s).Some? then a + [Oldest(s).value.item] else a) + Items(AfterOldest(s)) == a + Items(s)
  {
    ItemsAfterOldest(s);
    if Oldest(s).Some? {
      Associative(a, [Oldest(s).value.item], Items(AfterOldest(s)));
    }
  }

  lemma AddInOrder(a: seq<nat>, s: seq<Slot<nat>>, capacity: nat, mi: nat, n: nat)
    requires Increasing(a + Items(s)) && Below(a + Items(s), n)
    ensures var t := a + Items(Room(s, capacity) + [Live(n, mi)]); Increasing(t) && Below(t, n + 1)
  {
    ExtractInOrder(a, s);
    var kept := Items(Room(s, capacity));
    if |s| == capacity && Oldest(s).Some? {
      DropMiddle(a, Oldest(s).value.item, kept, n);
    }
    AppendLast(a + kept, n);
    ItemsConcat(Room(s, capacity), [Live(n, mi)]);
    assert Items([Live(n, mi)]) == [n];
    Associative(a, kept, [n]);
  }

  lemma AppendLast(s: seq<nat>, n: nat)
    requires Increasing(s) && Below(s, n)
    ensures Increasing(s + [n]) && Below(s + [n], n + 1)
  {}

  lemma {:induction false} ArrivalOrder(capacity: nat, events: seq<Event>)
    ensures InOrder(Run(capacity, events), |events|)
  {
    if events != [] {
      var n := |events| - 1;
      ArrivalOrder(capacity, events[..n]);
      StepInOrder(Run(capacity, events[..n]), capacity, events[n], n);
    }
  }

  // ---- the circular array

  /** The array position of the queue's slot `offset`. */
  function Index(head: nat, offset: nat, capacity: nat): (k: nat)
    requires head < capacity && offset <= capacity
    ensures k < capacity && k == if head + offset < capacity then head + offset else head + offset - capacity
  {
    Wraps(head + offset, capacity);
    (head + offset) % capacity
  }

  lemma Wraps(x: nat, m: nat)
    requires x < 2 * m
    ensures x % m == if x < m then x else x - m
  {
    if x >= m { WrapsOnce(x - m, m); }
  }

  lemma WrapsOnce(y: nat, m: nat)
    requires y < m
    ensures (m + y) % m == y
  {
    assert (m + y) / m == 1;
  }

  /** A buffer shared by queue slots and by code outside the queue. `freed` says that its memory is gone. */
  class MbufBuffer {
    var refcount: int
    var freed: bool
    const buf: seq<int>

    constructor (buf: seq<int>)
      ensures this.buf == buf && refcount == 1 && !freed
    {
      this.buf := buf;
      refcount, freed := 1, false;
    }
  }

  /** The number of slots that refer to `b`. */
  ghost function Uses(s: seq<Slot<MbufBuffer>>, b: MbufBuffer): nat {
    if s == [] then 0 else (if s[0].Live? && s[0].item == b then 1 else 0) + Uses(s[1..], b)
  }

  lemma {:induction false} UsesConcat(s: seq<Slot<MbufBuffer>>, t: seq<Slot<MbufBuffer>>, b: MbufBuffer)
    ensures Uses(s + t, b) == Uses(s, b) + Uses(t, b)
  {
    if s == [] {
      assert s + t == t;
    } else {
      UsesConcat(s[1..], t, b);
      assert (s + t)[1..] == s[1..] + t;
    }
  }

  /** The count of `b` agrees with its `uses` in the queue and its `holders` outside, and it is freed just
      when nothing refers to it any more. */
  ghost predicate Accounted(b: MbufBuffer, uses: nat, holders: nat)
    reads b
  {
    if b.freed then uses == 0 && holders == 0 else b.refcount == uses + holders > 0
  }

  /** Giving up one reference; the last one frees the buffer. */
  method FreeBuf(b: MbufBuffer, ghost uses: nat, ghost holders: nat)
    requires Accounted(b, uses, holders) && uses + holders > 0
    modifies b
    ensures uses > 0 ==> Accounted(b, uses - 1, holders)
    ensures holders > 0 ==> Accounted(b, uses, holders - 1)
    ensures b.freed <==> uses + holders == 1
  {
    assert !b.freed;
    b.refcount := b.refcount - 1;
    if b.refcount <= 0 {
      b.freed := true;
    }
  }

  class MbufSet {
    const array_: array<Slot<MbufBuffer>>
    var head: nat
    var len: nat
    var maxQueued: nat
    /** How many references to each buffer are held outside this queue. */
    ghost var outside: map<MbufBuffer, nat>

    ghost predicate Shape()
      reads this
    {
      head < array_.Length && len <= array_.Length && len <= maxQueued <= array_.Length
    }

    ghost function Contents(): (s: seq<Slot<MbufBuffer>>)
      requires Shape()
      reads this, array_
      ensures |s| == len
      ensures forall i :: 0 <= i < len ==> s[i] == array_[Index(head, i, array_.Length)]
    {
      seq(len, i requires 0 <= i < len && Shape() reads this, array_ => array_[Index(head, i, array_.Length)])
    }

    /** Every buffer is accounted for, with `s` as the queue. */
    ghost predicate Balanced(s: seq<Slot<MbufBuffer>>)
      reads this, outside.Keys
    {
      && (forall x :: x in s && x.Live? ==> x.item in outside)
      && (forall b :: b in outside ==> Accounted(b, Uses(s, b), outside[b]))
    }

    ghost predicate Valid()
      reads this, array_, outside.Keys
    {
      Shape() && Balanced(Contents())
    }

    constructor (capacity: nat)
      requires capacity > 0
      ensures Valid() && fresh(array_) && array_.Length == capacity && Contents() == [] && outside == map[]
    {
      array_ := new Slot<MbufBuffer>[capacity](_ => Dereferenced);
      head, len, maxQueued, outside := 0, 0, 0, map[];
    }

    /** A new buffer, held once outside the queue. */
    method AllocBuf(buf: seq<int>) returns (b: MbufBuffer)
      requires Valid()
      modifies this`outside
      ensures Valid() && fresh(b) && b.buf == buf && !b.freed
      ensures Contents() == old(Contents()) && outside == old(outside)[b := 1]
    {
      b := new MbufBuffer(buf);
      ghost var s := Contents();
      NoUse(s, b);
      outside := outside[b := 1];
      assert Contents() == s;
    }

    /** A holder outside the queue gives up its reference. */
    method Release(b: MbufBuffer)
      requires Valid() && b in outside && outside[b] > 0
      modifies this`outside, b
      ensures Valid() && Contents() == old(Contents()) && outside == old(outside)[b := old(outside)[b] - 1]
      ensures b.freed <==> Uses(Contents(), b) + outside[b] == 0
    {
      ghost var s := Contents();
      FreeBuf(b, Uses(s, b), outside[b]);
      outside := outside[b := outside[b] - 1];
      assert Contents() == s;
    }

    /** The loop of mbuf_extract_item. */
    method ExtractSlot() returns (r: Option<Slot<MbufBuffer>>)
      requires Shape()
      modifies this`head, this`len
      ensures Shape() && r == Oldest(old(Contents())) && Contents() == AfterOldest(old(Contents()))
    {
      r := None;
      while len > 0
        invariant Shape()
        invariant Oldest(Contents()) == Oldest(old(Contents()))
                  && AfterOldest(Contents()) == AfterOldest(old(Contents()))
      {
        ghost var s := Contents();
        var item := array_[head];
        assert item == s[0];
        head := Index(head, 1, array_.Length);
        len := len - 1;
        assert Contents() == s[1..];
        if item.Live? {
          return Some(item);
        }
      }
      assert Contents() == [];
    }

    /** The oldest live item leaves the queue; its reference now belongs to the caller. */
    method ExtractItem() returns (r: Option<Slot<MbufBuffer>>)
      requires Valid()
      modifies this
      ensures Valid() && r == Oldest(old(Contents())) && Contents() == AfterOldest(old(Contents()))
      ensures outside == if r.Some? then old(outside)[r.value.item := old(outside)[r.value.item] + 1] else old(outside)
      ensures maxQueued == old(maxQueued)
    {
      ghost var s := Contents();
      r := ExtractSlot();
      AfterOldestBalance(s);
      if r.Some? {
        outside := outside[r.value.item := outside[r.value.item] + 1];
        assert Contents() == AfterOldest(s);
      }
    }

    /** Making room in a full queue. */
    method DropOldest()
      requires Valid() && Oldest(Contents()).Some?
      modifies this`head, this`len, outside.Keys
      ensures Valid() && Contents() == AfterOldest(old(Contents()))
    {
      ghost var s := Contents();
      var rm := ExtractSlot();
      AfterOldestBalance(s);
      FreeBuf(rm.value.item, Uses(s, rm.value.item), outside[rm.value.item]);
      assert Contents() == AfterOldest(s);
    }

    /** The caller holds a reference to `b`; a full queue must hold a live item. */
    method AddItem(b: MbufBuffer, instance: nat)
      requires Valid() && b in outside && outside[b] > 0
      requires len == array_.Length ==> Oldest(Contents()).Some?
      modifies this, array_, outside.Keys
      ensures Valid() && outside == old(outside)
      ensures Contents() == Room(old(Contents()), array_.Length) + [Live(b, instance)]
      ensures maxQueued == if len > old(maxQueued) then len else old(maxQueued)
    {
      if len == array_.Length {
        DropOldest();
      }
      assert len < array_.Length;
      Push(b, instance);
    }

    method Push(b: MbufBuffer, instance: nat)
      requires Valid() && b in outside && outside[b] > 0 && len < array_.Length
      modifies this`len, this`maxQueued, array_, b
      ensures Valid() && Contents() == old(Contents()) + [Live(b, instance)]
      ensures maxQueued == if len > old(maxQueued) then len else old(maxQueued)
    {
      ghost var s := Contents();
      array_[Index(head, len, array_.Length)] := Live(b, instance);
      len := len + 1;
      if len > maxQueued {
        maxQueued := len;
      }
      b.refcount := b.refcount + 1;
      assert Contents() == s + [Live(b, instance)];
      forall x | x in outside
        ensures Uses(Contents(), x) == Uses(s, x) + if x == b then 1 else 0
      {
        UsesConcat(s, [Live(b, instance)], x);
      }
    }

    /** The client of the oldest live item. */
    method Peek() returns (r: Option<nat>)
      requires Valid()
      ensures r == if Oldest(Contents()).Some? then Some(Oldest(Contents()).value.instance) else None
    {
      ghost var s := Contents();
      assert s[0..] == s;
      for i := 0 to len
        invariant Oldest(s[i..]) == Oldest(s)
      {
        var item := array_[Index(head, i, array_.Length)];
        assert item == s[i] && s[i..][1..] == s[i + 1..];
        if item.Live? {
          return Some(item.instance);
        }
      }
      return None;
    }

    method WriteDereferenced(i: nat)
      requires Shape() && i < len
      modifies array_
      ensures Contents() == old(Contents())[i := Dereferenced]
    {
      array_[Index(head, i, array_.Length)] := Dereferenced;
    }

    /** The slot at `i` gives up its reference. */
    method ClearSlot(i: nat)
      requires Valid() && i < len && Contents()[i].Live?
      modifies array_, outside.Keys
      ensures Valid() && Contents() == old(Contents())[i := Dereferenced]
    {
      ghost var s := Contents();
      var b := array_[Index(head, i, array_.Length)].item;
      assert b == s[i].item && s[i] in s;
      WriteDereferenced(i);
      ClearBalance(s, i);
      FreeBuf(b, Uses(s, b), outside[b]);
      assert Contents() == s[i := Dereferenced];
    }

    /** Every slot of client `mi` gives up its reference and keeps its place. */
    method DereferenceInstance(mi: nat)
      requires Valid()
      modifies array_, outside.Keys
      ensures Valid() && Contents() == Forget(old(Contents()), mi)
    {
      ghost var s := Contents();
      for i := 0 to len
        invariant Valid()
        invariant forall j :: 0 <= j < len ==> Contents()[j] == if j < i then ForgetSlot(s[j], mi) else s[j]
      {
        var item := array_[Index(head, i, array_.Length)];
        assert item == Contents()[i] == s[i];
        if item.Live? && item.instance == mi {
          ClearSlot(i);
        }
      }
      forall j | 0 <= j < len ensures Contents()[j] == Forget(s, mi)[j] {
        ForgetAt(s, mi, j);
      }
    }

    /** The end of the queue: all its references are given up, those held outside remain. */
    method Free()
      requires Valid()
      modifies array_, outside.Keys
      ensures forall b :: b in outside ==> Accounted(b, 0, outside[b])
    {
      for i := 0 to len
        invariant Valid()
        invariant forall j :: 0 <= j < i ==> Contents()[j].Dereferenced?
      {
        var item := array_[Index(head, i, array_.Length)];
        assert item == Contents()[i];
        if item.Live? {
          ClearSlot(i);
        }
      }
      forall b | b in outside ensures Uses(Contents(), b) == 0 {
        NoUse(Contents(), b);
      }
    }
  }

  /** Slot `i` no longer refers to its buffer. */
  lemma {:induction false} UsesClear(s: seq<Slot<MbufBuffer>>, i: nat, b: MbufBuffer)
    requires i < |s| && s[i].Live?
    ensures Uses(s, b) == Uses(s[i := Dereferenced], b) + if s[i].item == b then 1 else 0
  {
    if i > 0 {
      UsesClear(s[1..], i - 1, b);
      assert s[i := Dereferenced][1..] == s[1..][i - 1 := Dereferenced];
    } else {
      assert s[0 := Dereferenced][1..] == s[1..];
    }
  }

  lemma ClearBalance(s: seq<Slot<MbufBuffer>>, i: nat)
    requires i < |s| && s[i].Live?
    ensures forall x :: x in s[i := Dereferenced] && x.Live? ==> x in s
    ensures forall b :: Uses(s, b) == Uses(s[i := Dereferenced], b) + if s[i].item == b then 1 else 0
  {
    forall b {
      UsesClear(s, i, b);
    }
  }

  lemma {:induction false} ForgetAt<T>(s: seq<Slot<T>>, mi: nat, i: nat)
    requires i < |s|
    ensures Forget(s, mi)[i] == ForgetSlot(s[i], mi)
  {
    if i > 0 { ForgetAt(s[1..], mi, i - 1); }
  }

  lemma {:induction false} NoUse(s: seq<Slot<MbufBuffer>>, b: MbufBuffer)
    requires forall x :: x in s && x.Live? ==> x.item != b
    ensures Uses(s, b) == 0
  {
    if s != [] { NoUse(s[1..], b); }
  }

  lemma {:induction false} UsesAfterOldest(s: seq<Slot<MbufBuffer>>, b: MbufBuffer)
    ensures Uses(s, b) == Uses(AfterOldest(s), b) + if Oldest(s).Some? && Oldest(s).value.item == b then 1 else 0
  {
    if s != [] && !s[0].Live? { UsesAfterOldest(s[1..], b); }
  }

  lemma {:induction false} AfterOldestSub(s: seq<Slot<MbufBuffer>>)
    ensures forall x :: x in AfterOldest(s) ==> x in s
  {
    if s != [] && !s[0].Live? { AfterOldestSub(s[1..]); }
  }

  lemma AfterOldestBalance(s: seq<Slot<MbufBuffer>>)
    ensures forall x :: x in AfterOldest(s) ==> x in s
    ensures forall b :: Uses(s, b) ==
              Uses(AfterOldest(s), b) + if Oldest(s).Some? && Oldest(s).value.item == b then 1 else 0
  {
    AfterOldestSub(s);
    forall b {
      UsesAfterOldest(s, b);
    }
  }
}
