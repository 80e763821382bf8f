/**
 * The sets of events a process waits for, in their three forms: a list of handles, a list of descriptors
 * with flags, and two descriptor sets. Each form, outside its fast mode, stands for one map from an event to
 * what is wanted of it.
 */
module EventSets {
  import opened Sequences

  datatype Flags = Flags(read: bool, write: bool)

  const NONE := Flags(false, false)

  /** What is done to a set. Events are numbers: descriptors, or names of handle pairs. */
  datatype Op = Ctl(event: int, flags: Flags, arg: int) | Del(event: int)

  function Wanted(op: Op): Flags {
    if op.Ctl? then op.flags else NONE
  }

  /** The map every form stands for: what the last operation on `event` asked. */
  function Spec(ops: seq<Op>, event: int): Flags {
    if ops == [] then NONE
    else if ops[|ops| - 1].event == event then Wanted(ops[|ops| - 1])
    else Spec(ops[..|ops| - 1], event)
  }

  // ---- lists of handles

  datatype Direction = READ | WRITE

  /** The read or the write handle of an event. */
  datatype Handle = Handle(event: int, direction: Direction)

  /** A handle, the flag returned when it is signalled, and the caller's argument. */
  datatype Entry = Entry(handle: Handle, rwflags: Direction, arg: int)

  ghost predicate Has(s: seq<Entry>, h: Handle) {
    exists i :: 0 <= i < |s| && s[i].handle == h
  }

  ghost function Requested(s: seq<Entry>, event: int): Flags {
    Flags(Has(s, Handle(event, READ)), Has(s, Handle(event, WRITE)))
  }

  /** One entry per handle, and each entry returns the flag of its handle. */
  ghost predicate WellFormed(s: seq<Entry>) {
    && (forall i, j :: 0 <= i < j < |s| ==> s[i].handle != s[j].handle)
    && (forall i :: 0 <= i < |s| ==> s[i].rwflags == s[i].handle.direction)
  }

  function Make(event: int, d: Direction, arg: int): Entry {
    Entry(Handle(event, d), d, arg)
  }

  function Find(s: seq<Entry>, h: Handle): (r: int)
    ensures -1 <= r < |s| && (r >= 0 ==> s[r].handle == h) && (r < 0 ==> !Has(s, h))
  {
    if s == [] then -1
    else if s[|s| - 1].handle == h then |s| - 1
    else
      assert forall i :: 0 <= i < |s| - 1 ==> s[i] == s[..|s| - 1][i];
      Find(s[..|s| - 1], h)
  }

  function Without(s: seq<Entry>, event: int): (r: seq<Entry>)
    ensures |r| <= |s|
  {
    if s == [] then []
    else Without(s[..|s| - 1], event) + if s[|s| - 1].handle.event == event then [] else [s[|s| - 1]]
  }

  /** we_append_event: the write handle first. */
  function Append(s: seq<Entry>, capacity: nat, event: int, f: Flags, arg: int): (seq<Entry>, bool) {
    if f.write && |s| >= capacity then (s, false)
    else
      var t := if f.write then s + [Make(event, WRITE, arg)] else s;
      if f.read && |t| >= capacity then (t, false)
      else (if f.read then t + [Make(event, READ, arg)] else t, true)
  }

  /** we_ctl outside the fast mode; the flag is false when the resource limit is reported. */
  function HandleCtl(s: seq<Entry>, capacity: nat, event: int, f: Flags, arg: int): (seq<Entry>, bool) {
    var ri, wi := Find(s, Handle(event, READ)), Find(s, Handle(event, WRITE));
    if ri < 0 && wi < 0 then Append(s, capacity, event, f, arg)
    else if ri >= 0 && wi >= 0 then
      if f == NONE then (Without(s, event), true)
      else if !f.write then (RemoveAt(s, wi), true)
      else if !f.read then (RemoveAt(s, ri), true)
      else (s, true)
    else
      var one := if ri >= 0 then ri else wi;
      if f == NONE then (RemoveAt(s, one), true)
      else if !f.write then (s[one := Make(event, READ, arg)], true)
      else if !f.read then (s[one := Make(event, WRITE, arg)], true)
      else Append(s, capacity, event, if ri < 0 then Flags(true, false) else Flags(false, true), arg)
  }

  function Count(f: Flags): nat {
    (if f.read then 1 else 0) + (if f.write then 1 else 0)
  }

  /** There is room for the handles that would have to be added. */
  ghost predicate HandlesFit(s: seq<Entry>, capacity: nat, event: int, f: Flags) {
    Count(f) <= Count(Requested(s, event)) || |s| + Count(f) - Count(Requested(s, event)) <= capacity
  }

  lemma HasAppend(s: seq<Entry>, e: Entry, h: Handle)
    ensures Has(s + [e], h) <==> Has(s, h) || e.handle == h
  {
    var t := s + [e];
    if Has(s, h) {
      var i :| 0 <= i < |s| && s[i].handle == h;
      assert t[i].handle == h;
    }
    if e.handle == h { assert t[|s|].handle == h; }
  }

  lemma WellFormedAppend(s: seq<Entry>, event: int, d: Direction, arg: int)
    requires WellFormed(s) && !Has(s, Handle(event, d))
    ensures WellFormed(s + [Make(event, d, arg)])
  {}

  lemma HasRemove(s: seq<Entry>, i: nat, h: Handle)
    requires WellFormed(s) && i < |s|
    ensures WellFormed(RemoveAt(s, i)) && (Has(RemoveAt(s, i), h) <==> Has(s, h) && s[i].handle != h)
  {
    var t := RemoveAt(s, i);
    assert forall k :: 0 <= k < |t| ==> t[k] == s[if k < i then k else k + 1];
    if Has(s, h) && s[i].handle != h {
      var k :| 0 <= k < |s| && s[k].handle == h;
      assert t[if k < i then k else k - 1].handle == h;
    }
  }

  lemma HasUpdate(s: seq<Entry>, i: nat, event: int, d: Direction, arg: int, h: Handle)
    requires WellFormed(s) && i < |s| && (s[i].handle == Handle(event, d) || !Has(s, Handle(event, d)))
    ensures var t := s[i := Make(event, d, arg)];
            WellFormed(t) && (Has(t, h) <==> (Has(s, h) && s[i].handle != h) || h == Handle(event, d))
  {
    var t := s[i := Make(event, d, arg)];
    if Has(s, h) && s[i].handle != h {
      var k :| 0 <= k < |s| && s[k].handle == h;
      assert t[k].handle == h;
    }
    assert t[i].handle == Handle(event, d);
  }

  lemma {:induction false} HasWithout(s: seq<Entry>, event: int, h: Handle)
    requires WellFormed(s)
    ensures WellFormed(Without(s, event)) && (Has(Without(s, event), h) <==> Has(s, h) && h.event != event)
  {
    if s != [] {
      var front, last := s[..|s| - 1], s[|s| - 1];
      HasWithout(front, event, h);
      HasWithout(front, event, last.handle);
      assert s == front + [last];
      HasAppend(front, last, h);
      HasAppend(Without(front, event), last, h);
      assert !Has(front, last.handle);
      if last.handle.event != event {
        assert last == Make(last.handle.event, last.rwflags, last.arg);
        WellFormedAppend(Without(front, event), last.handle.event, last.rwflags, last.arg);
      } else {
        assert Without(s, event) == Without(front, event);
      }
    }
  }

  lemma AppendRefines(s: seq<Entry>, capacity: nat, event: int, f: Flags, arg: int, x: int)
    requires WellFormed(s) && (f.read ==> !Has(s, Handle(event, READ))) && (f.write ==> !Has(s, Handle(event, WRITE)))
    ensures var (t, ok) := Append(s, capacity, event, f, arg);
            && WellFormed(t) && (x != event ==> Requested(t, x) == Requested(s, x))
            && (ok <==> Count(f) == 0 || |s| + Count(f) <= capacity)
            && (ok ==> Requested(t, event) ==
                       Flags(Requested(s, event).read || f.read, Requested(s, event).write || f.write))
            && (!ok ==> (f.read && !Has(t, Handle(event, READ))) || (f.write && !Has(t, Handle(event, WRITE))))
  {
    if f.write && |s| >= capacity { return; }
    var t := s;
    if f.write {
      t := s + [Make(event, WRITE, arg)];
      WellFormedAppend(s, event, WRITE, arg);
      AppendHas(s, event, WRITE, arg, event);
      AppendHas(s, event, WRITE, arg, x);
    }
    if f.read && |t| < capacity {
      WellFormedAppend(t, event, READ, arg);
      AppendHas(t, event, READ, arg, event);
      AppendHas(t, event, READ, arg, x);
    }
  }

  lemma AppendHas(s: seq<Entry>, event: int, d: Direction, arg: int, x: int)
    ensures var t, e := s + [Make(event, d, arg)], Handle(event, d);
            && (Has(t, Handle(x, READ)) <==> Has(s, Handle(x, READ)) || Handle(x, READ) == e)
            && (Has(t, Handle(x, WRITE)) <==> Has(s, Handle(x, WRITE)) || Handle(x, WRITE) == e)
  {
    HasAppend(s, Make(event, d, arg), Handle(x, READ));
    HasAppend(s, Make(event, d, arg), Handle(x, WRITE));
  }

  /** From `s` to `t` by ctl: the set asks for `f` of the event exactly when there was room, the error is
      reported exactly when there was not, and event `x`, if another, is asked for as before. */
  ghost predicate Refines(s: seq<Entry>, t: (seq<Entry>, bool), capacity: nat, event: int, f: Flags, x: int) {
    && WellFormed(t.0) && (x != event ==> Requested(t.0, x) == Requested(s, x))
    && (Requested(t.0, event) == f <==> HandlesFit(s, capacity, event, f))
    && (t.1 <==> HandlesFit(s, capacity, event, f))
  }

  lemma {:induction false} HandleCtlRefines(s: seq<Entry>, capacity: nat, event: int, f: Flags, arg: int, x: int)
    requires WellFormed(s)
    ensures Refines(s, HandleCtl(s, capacity, event, f, arg), capacity, event, f, x)
  {
    var ri, wi := Find(s, Handle(event, READ)), Find(s, Handle(event, WRITE));
    if ri < 0 && wi < 0 {
      NonePresent(s, capacity, event, f, arg, x);
    } else if ri >= 0 && wi >= 0 {
      BothPresent(s, capacity, ri, wi, event, f, x);
    } else if ri >= 0 {
      OnePresent(s, capacity, ri, READ, event, f, arg, x);
    } else {
      OnePresent(s, capacity, wi, WRITE, event, f, arg, x);
    }
  }

  lemma NonePresent(s: seq<Entry>, capacity: nat, event: int, f: Flags, arg: int, x: int)
    requires WellFormed(s) && Requested(s, event) == NONE
    ensures Refines(s, Append(s, capacity, event, f, arg), capacity, event, f, x)
  {
    AppendRefines(s, capacity, event, f, arg, x);
  }

  lemma RemoveHas(s: seq<Entry>, i: nat, x: int)
    requires WellFormed(s) && i < |s|
    ensures WellFormed(RemoveAt(s, i))
    ensures Requested(RemoveAt(s, i), x) == Flags(Has(s, Handle(x, READ)) && s[i].handle != Handle(x, READ),
                                                  Has(s, Handle(x, WRITE)) && s[i].handle != Handle(x, WRITE))
  {
    HasRemove(s, i, Handle(x, READ));
    HasRemove(s, i, Handle(x, WRITE));
  }

  lemma BothPresent(s: seq<Entry>, capacity: nat, ri: nat, wi: nat, event: int, f: Flags, x: int)
    requires WellFormed(s) && ri < |s| && wi < |s|
    requires s[ri].handle == Handle(event, READ) && s[wi].handle == Handle(event, WRITE)
    ensures var t := if f == NONE then Without(s, event) else if !f.write then RemoveAt(s, wi)
                     else if !f.read then RemoveAt(s, ri) else s;
            Refines(s, (t, true), capacity, event, f, x)
  {
    if f == NONE {
      HasWithout(s, event, Handle(event, READ));
      HasWithout(s, event, Handle(event, WRITE));
      HasWithout(s, event, Handle(x, READ));
      HasWithout(s, event, Handle(x, WRITE));
    } else {
      RemoveHas(s, wi, event);
      RemoveHas(s, wi, x);
      RemoveHas(s, ri, event);
      RemoveHas(s, ri, x);
    }
  }

  lemma UpdateHas(s: seq<Entry>, i: nat, event: int, d: Direction, arg: int, x: int)
    requires WellFormed(s) && i < |s| && s[i].handle.event == event
    requires s[i].handle == Handle(event, d) || !Has(s, Handle(event, d))
    ensures var t := s[i := Make(event, d, arg)];
            && WellFormed(t) && (x != event ==> Requested(t, x) == Requested(s, x))
            && (x == event && Count(Requested(s, event)) == 1 ==> Requested(t, x) == Flags(d == READ, d == WRITE))
  {
    HasUpdate(s, i, event, d, arg, Handle(x, READ));
    HasUpdate(s, i, event, d, arg, Handle(x, WRITE));
    assert Has(s, s[i].handle);
  }

  lemma OnePresent(s: seq<Entry>, capacity: nat, one: nat, d: Direction, event: int, f: Flags, arg: int, x: int)
    requires WellFormed(s) && one < |s| && s[one].handle == Handle(event, d)
    requires !Has(s, Handle(event, if d == READ then WRITE else READ))
    ensures var t :=
              if f == NONE then (RemoveAt(s, one), true)
              else if !f.write then (s[one := Make(event, READ, arg)], true)
              else if !f.read then (s[one := Make(event, WRITE, arg)], true)
              else Append(s, capacity, event, if d == WRITE then Flags(true, false) else Flags(false, true), arg);
            Refines(s, t, capacity, event, f, x)
  {
    assert Has(s, Handle(event, d));
    if f == NONE {
      RemoveHas(s, one, event);
      RemoveHas(s, one, x);
    } else if f == Flags(true, true) {
      AppendRefines(s, capacity, event, if d == WRITE then Flags(true, false) else Flags(false, true), arg, x);
    } else {
      var d' := if f.read then READ else WRITE;
      UpdateHas(s, one, event, d', arg, event);
      UpdateHas(s, one, event, d', arg, x);
    }
  }

  // ---- lists of descriptors

  datatype PollEntry = PollEntry(fd: int, events: Flags, arg: int)

  function PollFind(s: seq<PollEntry>, fd: int): (r: int)
    ensures -1 <= r < |s|
    ensures r >= 0 ==> s[r].fd == fd && forall i :: 0 <= i < r ==> s[i].fd != fd
    ensures r < 0 ==> forall i :: 0 <= i < |s| ==> s[i].fd != fd
  {
    PollFindFrom(s, fd, 0)
  }

  function PollFindFrom(s: seq<PollEntry>, fd: int, k: nat): (r: int)
    requires k <= |s|
    ensures r < 0 || k <= r < |s|
    ensures r >= -1
    ensures r >= 0 ==> s[r].fd == fd && forall i :: k <= i < r ==> s[i].fd != fd
    ensures r < 0 ==> forall i :: k <= i < |s| ==> s[i].fd != fd
    decreases |s| - k
  {
    if k == |s| then -1 else if s[k].fd == fd then k else PollFindFrom(s, fd, k + 1)
  }

  function PollCtl(s: seq<PollEntry>, capacity: nat, fd: int, f: Flags, arg: int): (seq<PollEntry>, bool) {
    var i := PollFind(s, fd);
    if i >= 0 then (s[i := PollEntry(fd, f, arg)], true)
    else if |s| < capacity then (s + [PollEntry(fd, f, arg)], true)
    else (s, false)
  }

  function PollDel(s: seq<PollEntry>, fd: int): seq<PollEntry> {
    var i := PollFind(s, fd);
    if i >= 0 then RemoveAt(s, i) else s
  }

  function PollRequested(s: seq<PollEntry>, fd: int): Flags {
    var i := PollFind(s, fd);
    if i >= 0 then s[i].events else NONE
  }

  /** One entry per descriptor. */
  ghost predicate Distinct(s: seq<PollEntry>) {
    forall i, j :: 0 <= i < j < |s| ==> s[i].fd != s[j].fd
  }

  lemma PollCtlRefines(s: seq<PollEntry>, capacity: nat, fd: int, f: Flags, arg: int, x: int)
    requires Distinct(s)
    ensures var (t, ok) := PollCtl(s, capacity, fd, f, arg);
            && Distinct(t) && (x != fd ==> PollRequested(t, x) == PollRequested(s, x))
            && (ok <==> PollFind(s, fd) >= 0 || |s| < capacity)
            && (PollRequested(t, fd) == f <==> ok || f == NONE)
  {
    var t := PollCtl(s, capacity, fd, f, arg).0;
    var i := PollFind(s, fd);
    if x != fd {
      forall e: PollEntry | e.fd == x && e in s ensures e in t {
        var k :| 0 <= k < |s| && s[k] == e;
        assert t[k] == e;
      }
      PollSame(s, t, x);
    }
    if i >= 0 { assert t[i].fd == fd; } else if |s| < capacity { assert t[|s|].fd == fd; }
  }

  /** What is asked of `x` depends only on its entry. */
  lemma PollSame(s: seq<PollEntry>, t: seq<PollEntry>, x: int)
    requires Distinct(s) && Distinct(t)
    requires forall e: PollEntry :: e.fd == x ==> (e in s <==> e in t)
    ensures PollRequested(s, x) == PollRequested(t, x)
  {
    var i, j := PollFind(s, x), PollFind(t, x);
    if i >= 0 { assert s[i] in t; }
    if j >= 0 { assert t[j] in s; }
  }

  lemma PollDelRefines(s: seq<PollEntry>, fd: int, x: int)
    requires Distinct(s)
    ensures var t := PollDel(s, fd);
            Distinct(t) && PollRequested(t, x) == if x == fd then NONE else PollRequested(s, x)
  {
    var i, t := PollFind(s, fd), PollDel(s, fd);
    if i >= 0 {
      assert forall k :: 0 <= k < |t| ==> t[k] == s[if k < i then k else k + 1];
      forall e: PollEntry | e.fd != fd && e in s ensures e in t {
        var k :| 0 <= k < |s| && s[k] == e;
        assert t[if k < i then k else k - 1] == e;
      }
    }
    if x != fd { PollSame(s, t, x); }
  }

  // ---- descriptor sets

  datatype Sets = Sets(readfds: set<int>, writefds: set<int>, args: map<int, int>, maxfd: int)

  function Put(s: set<int>, fd: int, b: bool): set<int> {
    if b then s + {fd} else s - {fd}
  }

  function SelectCtl(s: Sets, capacity: nat, fd: int, f: Flags, arg: int): (Sets, bool) {
    if 0 <= fd < capacity then
      (Sets(Put(s.readfds, fd, f.read), Put(s.writefds, fd, f.write), s.args[fd := arg],
            if fd > s.maxfd then fd else s.maxfd), true)
    else (s, false)
  }

  /** se_ctl in the fast mode: flags are only added. */
  function SelectFastCtl(s: Sets, capacity: nat, fd: int, f: Flags, arg: int): (Sets, bool) {
    if 0 <= fd < capacity then
      (Sets(if f.read then s.readfds + {fd} else s.readfds, if f.write then s.writefds + {fd} else s.writefds,
            s.args[fd := arg], if fd > s.maxfd then fd else s.maxfd), true)
    else (s, false)
  }

  /** On a descriptor of which nothing is asked, as after a reset, the two modes agree. */
  lemma FastOnFresh(s: Sets, capacity: nat, fd: int, f: Flags, arg: int)
    requires SelectRequested(s, fd) == NONE
    ensures SelectFastCtl(s, capacity, fd, f, arg) == SelectCtl(s, capacity, fd, f, arg)
  {
    assert s.readfds - {fd} == s.readfds && s.writefds - {fd} == s.writefds;
  }

  function SelectDel(s: Sets, capacity: nat, fd: int): Sets {
    if 0 <= fd < capacity
    then s.(readfds := s.readfds - {fd}, writefds := s.writefds - {fd}, args := s.args - {fd})
    else s
  }

  function SelectRequested(s: Sets, fd: int): Flags {
    Flags(fd in s.readfds, fd in s.writefds)
  }

  /** Every descriptor waited for is at most `maxfd`, and that lies below the capacity. */
  ghost predicate Bounded(s: Sets, capacity: nat) {
    && -1 <= s.maxfd < capacity
    && (forall fd :: fd in s.readfds || fd in s.writefds || fd in s.args ==> 0 <= fd <= s.maxfd)
  }

  lemma SelectRefines(s: Sets, capacity: nat, op: Op, x: int)
    requires Bounded(s, capacity)
    ensures var t := if op.Ctl? then SelectCtl(s, capacity, op.event, op.flags, op.arg).0
                     else SelectDel(s, capacity, op.event);
            && Bounded(t, capacity) && (x != op.event ==> SelectRequested(t, x) == SelectRequested(s, x))
            && (SelectRequested(t, op.event) == Wanted(op) <==> 0 <= op.event < capacity || Wanted(op) == NONE)
  {}

  // ---- every run

  datatype State = State(handles: seq<Entry>, polls: seq<PollEntry>, sets: Sets)

  const START := State([], [], Sets({}, {}, map[], -1))

  function Step(st: State, capacity: nat, op: Op): State {
    match op
    case Ctl(e, f, arg) =>
      State(HandleCtl(st.handles, capacity, e, f, arg).0, PollCtl(st.polls, capacity, e, f, arg).0,
            SelectCtl(st.sets, capacity, e, f, arg).0)
    case Del(e) =>
      State(Without(st.handles, e), PollDel(st.polls, e), SelectDel(st.sets, capacity, e))
  }

  function Run(capacity: nat, ops: seq<Op>): State {
    if ops == [] then START else Step(Run(capacity, ops[..|ops| - 1]), capacity, ops[|ops| - 1])
  }

  /** The three forms stand for the map at `x`. */
  ghost predicate Agree(st: State, ops: seq<Op>, x: int) {
    && Requested(st.handles, x) == Spec(ops, x)
    && PollRequested(st.polls, x) == Spec(ops, x)
    && SelectRequested(st.sets, x) == Spec(ops, x)
  }

  ghost predicate Valid(st: State, capacity: nat) {
    WellFormed(st.handles) && Distinct(st.polls) && Bounded(st.sets, capacity)
  }

  /** The operation stays within the capacity of each form. */
  ghost predicate Fits(st: State, capacity: nat, op: Op) {
    op.Ctl? ==>
      && HandlesFit(st.handles, capacity, op.event, op.flags)
      && (PollFind(st.polls, op.event) >= 0 || |st.polls| < capacity)
      && 0 <= op.event < capacity
  }

  ghost predicate WithinCapacity(capacity: nat, ops: seq<Op>) {
    forall n :: 0 <= n < |ops| ==> Fits(Run(capacity, ops[..n]), capacity, ops[n])
  }

  lemma StepAgrees(st: State, capacity: nat, op: Op, x: int)
    requires Valid(st, capacity) && Fits(st, capacity, op)
    ensures var t := Step(st, capacity, op);
            && Valid(t, capacity)
            && Requested(t.handles, x) == (if x == op.event then Wanted(op) else Requested(st.handles, x))
            && PollRequested(t.polls, x) == (if x == op.event then Wanted(op) else PollRequested(st.polls, x))
            && (SelectRequested(t.sets, x) == if x == op.event && 0 <= op.event < capacity then Wanted(op)
                else SelectRequested(st.sets, x))
  {
    SelectRefines(st.sets, capacity, op, x);
    match op
    case Ctl(e, f, arg) =>
      HandleCtlRefines(st.handles, capacity, e, f, arg, x);
      PollCtlRefines(st.polls, capacity, e, f, arg, x);
    case Del(e) =>
      HasWithout(st.handles, e, Handle(x, READ));
      HasWithout(st.handles, e, Handle(x, WRITE));
      PollDelRefines(st.polls, e, x);
  }

  /** Over every run of ctl and del within capacity the three forms agree with the map, hence with each other. */
  lemma {:induction false} RunAgrees(capacity: nat, ops: seq<Op>, x: int)
    requires WithinCapacity(capacity, ops)
    ensures Valid(Run(capacity, ops), capacity) && Agree(Run(capacity, ops), ops, x)
  {
    if ops != [] {
      var n := |ops| - 1;
      var front := ops[..n];
      assert forall k :: 0 <= k <= n ==> front[..k] == ops[..k];
      RunAgrees(capacity, front, x);
      assert ops[..n] == front;
      StepAgrees(Run(capacity, front), capacity, ops[n], x);
      if !(0 <= ops[n].event < capacity) {
        SelectOutside(capacity, front, ops[n].event);
      }
    }
  }

  /** A descriptor beyond the capacity is in no descriptor set. */
  lemma SelectOutside(capacity: nat, ops: seq<Op>, x: int)
    requires Valid(Run(capacity, ops), capacity) && !(0 <= x < capacity)
    ensures SelectRequested(Run(capacity, ops).sets, x) == NONE
  {}
}
