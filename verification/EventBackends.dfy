/**
 * The three forms of an event set as they are stored: arrays changed in place, and descriptor sets.
 */
module EventBackends {
  import opened EventSets
  import opened Sequences

  datatype Return = Return(rwflags: Direction, arg: int)

  /** we_set: two arrays side by side, of which the first `n` places are in use. */
  class HandleSet {
    const events: array<Handle>
    const esr: array<Return>
    const fast: bool
    var n: nat

    ghost predicate Shape()
      reads this
    {
      events.Length == esr.Length && n <= events.Length
    }

    /** All places of the arrays. */
    ghost function All(): (s: seq<Entry>)
      requires Shape()
      reads this, events, esr
      ensures |s| == events.Length
      ensures forall i :: 0 <= i < |s| ==> s[i] == Entry(events[i], esr[i].rwflags, esr[i].arg)
    {
      seq(events.Length, i requires 0 <= i < events.Length && Shape() reads this, events, esr =>
        Entry(events[i], esr[i].rwflags, esr[i].arg))
    }

    ghost function Contents(): seq<Entry>
      requires Shape()
      reads this, events, esr
    {
      All()[..n]
    }

    constructor (capacity: nat, fast: bool)
      ensures Shape() && n == 0 && fresh(events) && fresh(esr) && events.Length == capacity && this.fast == fast
    {
      events := new Handle[capacity](_ => Handle(0, READ));
      esr := new Return[capacity](_ => Return(READ, 0));
      this.fast, n := fast, 0;
    }

    method SetEvent(i: nat, event: int, d: Direction, arg: int)
      requires Shape() && i < events.Length
      modifies events, esr
      ensures All() == old(All())[i := Make(event, d, arg)]
    {
      events[i] := Handle(event, d);
      esr[i] := Return(d, arg);
    }

    method CopyDown(j: nat, i: nat)
      requires Shape() && j <= i < events.Length
      modifies events, esr
      ensures All() == old(All())[j := old(All())[i]]
    {
      events[j] := events[i];
      esr[j] := esr[i];
    }

    method AppendOne(event: int, d: Direction, arg: int) returns (ok: bool)
      requires Shape()
      modifies this`n, events, esr
      ensures Shape() && ok == (old(n) < events.Length)
      ensures Contents() == if ok then old(Contents()) + [Make(event, d, arg)] else old(Contents())
    {
      if n < events.Length {
        SetEvent(n, event, d, arg);
        n := n + 1;
        return true;
      }
      return false;
    }

    method AppendEvent(event: int, f: Flags, arg: int) returns (ok: bool)
      requires Shape()
      modifies this`n, events, esr
      ensures Shape() && (Contents(), ok) == Append(old(Contents()), events.Length, event, f, arg)
    {
      ok := true;
      if f.write {
        ok := AppendOne(event, WRITE, arg);
        if !ok { return; }
      }
      if f.read {
        ok := AppendOne(event, READ, arg);
      }
    }

    /** Compaction: the entries of other events move down over those of `event`. */
    method DelEvent(event: int)
      requires Shape()
      modifies this`n, events, esr
      ensures Shape() && Contents() == Without(old(Contents()), event)
    {
      ghost var s := All();
      var len, j := n, 0;
      for i := 0 to len
        invariant Shape() && j <= i && n == len - (i - j)
        invariant All()[..j] == Without(s[..i], event) && forall k :: i <= k < |s| ==> All()[k] == s[k]
      {
        j := DelStep(i, j, event, s);
      }
    }

    /** One round: the entry at `i` goes, or moves down to `j`. */
    method DelStep(i: nat, j: nat, event: int, ghost s: seq<Entry>) returns (j': nat)
      requires Shape() && j <= i < events.Length && 0 < n && |s| == events.Length
      requires All()[..j] == Without(s[..i], event) && forall k :: i <= k < |s| ==> All()[k] == s[k]
      modifies this`n, events, esr
      ensures Shape() && j <= j' <= i + 1 && n - old(n) == j' - j - 1
      ensures All()[..j'] == Without(s[..i + 1], event) && forall k :: i < k < |s| ==> All()[k] == s[k]
    {
      j' := j;
      WithoutStep(s, i, event);
      var h := events[i];
      assert h == All()[i].handle == s[i].handle;
      if h.event == event {
        n := n - 1;
      } else {
        CompactStep(All(), j, i);
        if i != j {
          CopyDown(j, i);
        }
        j' := j + 1;
      }
    }

    /** The entries behind `index` move down by one. */
    method DelIndex(index: nat)
      requires Shape() && index < n
      modifies this`n, events, esr
      ensures Shape() && Contents() == RemoveAt(old(Contents()), index)
    {
      ghost var s := All();
      for i := index to n - 1
        invariant Shape() && n == old(n) && forall k :: 0 <= k < index ==> All()[k] == s[k]
        invariant forall k :: index <= k < i ==> All()[k] == s[k + 1]
        invariant forall k :: i <= k < |s| ==> All()[k] == s[k]
      {
        CopyDown(i, i + 1);
      }
      Shifted(s, All(), index, n);
      n := n - 1;
    }

    method GetRwIndices(event: int) returns (ri: int, wi: int)
      requires Shape() && WellFormed(Contents())
      ensures ri == Find(Contents(), Handle(event, READ)) && wi == Find(Contents(), Handle(event, WRITE))
    {
      ri, wi := -1, -1;
      ghost var s := Contents();
      for i := 0 to n
        invariant ri == Find(s[..i], Handle(event, READ)) && wi == Find(s[..i], Handle(event, WRITE))
      {
        var h := events[i];
        assert h == s[i].handle && s[..i + 1][..i] == s[..i];
        if h == Handle(event, READ) {
          assert ri == -1;
          ri := i;
        } else if h == Handle(event, WRITE) {
          assert wi == -1;
          wi := i;
        }
      }
      assert s[..n] == s;
    }

    method Del(event: int)
      requires Shape() && !fast
      modifies this`n, events, esr
      ensures Shape() && Contents() == Without(old(Contents()), event)
    {
      DelEvent(event);
    }

    method Update(i: nat, event: int, d: Direction, arg: int)
      requires Shape() && i < n
      modifies events, esr
      ensures Contents() == old(Contents())[i := Make(event, d, arg)]
    {
      SetEvent(i, event, d, arg);
    }

    /** ctl on an event of which one handle, that for `d`, is at place `one`. */
    method ChangeOne(one: nat, d: Direction, event: int, f: Flags, arg: int) returns (ok: bool)
      requires Shape() && one < n
      modifies this`n, events, esr
      ensures Shape()
      ensures f == NONE ==> ok && Contents() == RemoveAt(old(Contents()), one)
      ensures f == Flags(true, false) ==> ok && Contents() == old(Contents())[one := Make(event, READ, arg)]
      ensures f == Flags(false, true) ==> ok && Contents() == old(Contents())[one := Make(event, WRITE, arg)]
      ensures f == Flags(true, true) ==>
                (Contents(), ok) == Append(old(Contents()), events.Length, event, Flags(d == WRITE, d == READ), arg)
    {
      ok := true;
      if f == NONE {
        DelIndex(one);
      } else if f == Flags(true, false) {
        Update(one, event, READ, arg);
      } else if f == Flags(false, true) {
        Update(one, event, WRITE, arg);
      } else {
        ok := AppendEvent(event, Flags(d == WRITE, d == READ), arg);
      }
    }

    /** ctl on an event of which both handles are there. */
    method ChangeBoth(ri: nat, wi: nat, event: int, f: Flags)
      requires Shape() && ri < n && wi < n
      modifies this`n, events, esr
      ensures Shape()
      ensures f == NONE ==> Contents() == Without(old(Contents()), event)
      ensures f == Flags(true, false) ==> Contents() == RemoveAt(old(Contents()), wi)
      ensures f == Flags(false, true) ==> Contents() == RemoveAt(old(Contents()), ri)
      ensures f == Flags(true, true) ==> Contents() == old(Contents())
    {
      if f == NONE {
        DelEvent(event);
      } else if f == Flags(true, false) {
        DelIndex(wi);
      } else if f == Flags(false, true) {
        DelIndex(ri);
      }
    }

    method Ctl(event: int, f: Flags, arg: int) returns (ok: bool)
      requires Shape() && (!fast ==> WellFormed(Contents()))
      modifies this`n, events, esr
      ensures Shape()
      ensures (Contents(), ok) ==
              if fast then Append(old(Contents()), events.Length, event, f, arg)
              else HandleCtl(old(Contents()), events.Length, event, f, arg)
      ensures !fast ==> WellFormed(Contents())
    {
      ok := true;
      if fast {
        ok := AppendEvent(event, f, arg);
      } else {
        HandleCtlRefines(Contents(), events.Length, event, f, arg, event);
        var ri, wi := GetRwIndices(event);
        if ri < 0 && wi < 0 {
          ok := AppendEvent(event, f, arg);
        } else if wi < 0 {
          ok := ChangeOne(ri, READ, event, f, arg);
        } else if ri < 0 {
          ok := ChangeOne(wi, WRITE, event, f, arg);
        } else {
          ChangeBoth(ri, wi, event, f);
        }
      }
    }
  }

  lemma WithoutStep(s: seq<Entry>, i: nat, event: int)
    requires i < |s|
    ensures Without(s[..i + 1], event) == Without(s[..i], event) + if s[i].handle.event == event then [] else [s[i]]
  {
    assert s[..i + 1][..i] == s[..i];
  }

  lemma Shifted(s: seq<Entry>, t: seq<Entry>, index: nat, n: nat)
    requires index < n <= |s| == |t|
    requires forall k :: 0 <= k < index ==> t[k] == s[k]
    requires forall k :: index <= k < n - 1 ==> t[k] == s[k + 1]
    ensures t[..n - 1] == RemoveAt(s[..n], index)
  {}

  lemma CompactStep(s: seq<Entry>, j: nat, i: nat)
    requires j <= i < |s|
    ensures s[j := s[i]][..j + 1] == s[..j] + [s[i]]
    ensures i == j ==> s[j := s[i]] == s
  {}

  /** po_set: an array of descriptors with flags. */
  class PollSet {
    const events: array<PollEntry>
    const fast: bool
    var n: nat

    ghost function Contents(): seq<PollEntry>
      requires n <= events.Length
      reads this, events
    {
      events[..n]
    }

    constructor (capacity: nat, fast: bool)
      ensures n == 0 && fresh(events) && events.Length == capacity && this.fast == fast
    {
      events := new PollEntry[capacity](_ => PollEntry(0, NONE, 0));
      this.fast, n := fast, 0;
    }

    method Del(fd: int)
      requires n <= events.Length && !fast
      modifies this`n, events
      ensures n <= events.Length && Contents() == PollDel(old(Contents()), fd)
    {
      ghost var s := events[..n];
      for i := 0 to n
        invariant events[..n] == s && n == |s| && forall k :: 0 <= k < i ==> s[k].fd != fd
      {
        if events[i].fd == fd {
          Shift(i);
          return;
        }
      }
    }

    method Shift(index: nat)
      requires index < n <= events.Length
      modifies this`n, events
      ensures n == old(n) - 1 && events[..n] == old(events[..n])[..index] + old(events[..n])[index + 1..]
    {
      ghost var s := events[..];
      for j := index to n - 1
        invariant n == old(n) && forall k :: 0 <= k < index ==> events[k] == s[k]
        invariant forall k :: index <= k < j ==> events[k] == s[k + 1]
        invariant forall k :: j <= k < |s| ==> events[k] == s[k]
      {
        events[j] := events[j + 1];
      }
      n := n - 1;
    }

    method AppendEvent(fd: int, f: Flags, arg: int) returns (ok: bool)
      requires n <= events.Length
      modifies this`n, events
      ensures n <= events.Length && ok == (old(n) < events.Length)
      ensures Contents() == if ok then old(Contents()) + [PollEntry(fd, f, arg)] else old(Contents())
    {
      if n < events.Length {
        events[n] := PollEntry(fd, f, arg);
        n := n + 1;
        return true;
      } else {
        return false;
      }
    }

    method Ctl(fd: int, f: Flags, arg: int) returns (ok: bool)
      requires n <= events.Length
      modifies this`n, events
      ensures n <= events.Length
      ensures !fast ==> (Contents(), ok) == PollCtl(old(Contents()), events.Length, fd, f, arg)
      ensures fast ==> Contents() == old(Contents()) + if ok then [PollEntry(fd, f, arg)] else []
      ensures fast ==> ok == (old(n) < events.Length)
    {
      if !fast {
        for i := 0 to n
          invariant events[..n] == old(events[..n]) && n == old(n) && forall k :: 0 <= k < i ==> events[k].fd != fd
        {
          if events[i].fd == fd {
            events[i] := PollEntry(fd, f, arg);
            assert PollFind(old(events[..n]), fd) == i;
            return true;
          }
        }
      }
      ok := AppendEvent(fd, f, arg);
    }
  }

  /** se_set: two descriptor sets; `args` holds an argument for each descriptor below the capacity. */
  class SelectSet {
    var readfds: set<int>
    var writefds: set<int>
    var args: map<int, int>
    var maxfd: int
    const capacity: nat
    const fast: bool

    ghost function Value(): Sets
      reads this
    {
      Sets(readfds, writefds, args, maxfd)
    }

    constructor (capacity: nat, fast: bool)
      ensures Value() == START.sets && this.capacity == capacity && this.fast == fast
    {
      readfds, writefds, args, maxfd := {}, {}, map[], -1;
      this.capacity, this.fast := capacity, fast;
    }

    method Ctl(fd: int, f: Flags, arg: int) returns (ok: bool)
      modifies this
      ensures (Value(), ok) ==
              if fast then SelectFastCtl(old(Value()), capacity, fd, f, arg)
              else SelectCtl(old(Value()), capacity, fd, f, arg)
    {
      if 0 <= fd < capacity {
        maxfd := if fd > maxfd then fd else maxfd;
        args := args[fd := arg];
        if fast {
          if f.read { readfds := readfds + {fd}; }
          if f.write { writefds := writefds + {fd}; }
        } else {
          if f.read { readfds := readfds + {fd}; } else { readfds := readfds - {fd}; }
          if f.write { writefds := writefds + {fd}; } else { writefds := writefds - {fd}; }
        }
        return true;
      } else {
        return false;
      }
    }

    method Del(fd: int)
      requires !fast
      modifies this
      ensures Value() == SelectDel(old(Value()), capacity, fd)
    {
      if 0 <= fd < capacity {
        readfds := readfds - {fd};
        writefds := writefds - {fd};
        args := args - {fd};
      }
    }
  }
}
