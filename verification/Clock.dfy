/**
 * The filtered clock and the limiter of new connections that reads it.
 */
module Clock {

  const FORWARD_THRESHOLD := 86400
  const BACKWARD_TRIGGER := 10

  /** `now` is the filtered time, `adj` is what the filter adds to the system's time. */
  datatype Time = Time(now: int, adj: int, usec: int)

  function UpdateNow(c: Time, systemTime: int): Time {
    var realTime := systemTime + c.adj;
    if realTime > c.now then
      var overshoot := realTime - c.now - 1;
      if overshoot > FORWARD_THRESHOLD && c.adj >= overshoot then
        c.(adj := c.adj - overshoot, now := realTime - overshoot)
      else c.(now := realTime)
    else if realTime < c.now - BACKWARD_TRIGGER then c.(adj := c.adj + (c.now - realTime))
    else c
  }

  function UpdateNowUsec(c: Time, systemTime: int, usec: int): Time {
    var c' := UpdateNow(c, systemTime);
    if c'.now > c.now || (c'.now == c.now && usec > c.usec) then c'.(usec := usec) else c'
  }

  datatype Reading = Seconds(sec: int) | Micros(sec: int, usec: int)

  function Update(c: Time, r: Reading): Time {
    match r
    case Seconds(sec) => UpdateNow(c, sec)
    case Micros(sec, usec) => UpdateNowUsec(c, sec, usec)
  }

  /** (now, usec) pairs in order. */
  predicate NotLater(a: Time, b: Time) {
    a.now < b.now || (a.now == b.now && a.usec <= b.usec)
  }

  /** The adjusted system time is at most ten seconds behind `now` and never ahead of it. */
  predicate Tracks(c: Time, sec: int) {
    c.now - BACKWARD_TRIGGER <= sec + c.adj <= c.now
  }

  lemma UpdateStep(c: Time, r: Reading)
    requires c.adj >= 0
    ensures var c' := Update(c, r);
            && c'.adj >= 0 && Tracks(c', r.sec) && c.now <= c'.now
            && NotLater(c, c')
            && (Update(c', Seconds(r.sec)) == c')
  {}

  function Run(c: Time, readings: seq<Reading>): Time {
    if readings == [] then c else Update(Run(c, readings[..|readings| - 1]), readings[|readings| - 1])
  }

  /** Over any sequence of system times, forward or backward, with and without microseconds. */
  lemma {:induction false} NeverBack(c: Time, readings: seq<Reading>, i: nat)
    requires c.adj >= 0 && i <= |readings|
    ensures var before, after := Run(c, readings[..i]), Run(c, readings);
            && before.now <= after.now && after.adj >= 0
            && NotLater(before, after)
            && (readings != [] ==> Tracks(after, readings[|readings| - 1].sec))
  {
    if readings != [] {
      var n := |readings| - 1;
      NeverBack(c, readings[..n], if i <= n then i else n);
      UpdateStep(Run(c, readings[..n]), readings[n]);
      if i <= n {
        assert readings[..n][..i] == readings[..i];
      } else {
        assert readings[..i] == readings;
      }
    } else {
      assert readings[..i] == readings;
    }
  }

  // ---- the limiter

  datatype Limit = Limit(max: nat, per: nat, n: int, reset: int)

  function Ask(f: Limit, now: int): (Limit, bool) {
    if f.per == 0 then (f, true)
    else
      var g := if now >= f.reset + f.per then f.(reset := now, n := 0) else f;
      (g.(n := g.n + 1), g.n + 1 <= g.max)
  }

  /** How many of the events at these times are let through. */
  function Admitted(f: Limit, times: seq<int>): nat
    decreases |times|
  {
    if times == [] then 0
    else (if Ask(f, times[0]).1 then 1 else 0) + Admitted(Ask(f, times[0]).0, times[1..])
  }

  /** The limiter after events at these times. */
  function After(f: Limit, times: seq<int>): Limit
    decreases |times|
  {
    if times == [] then f else After(Ask(f, times[0]).0, times[1..])
  }

  lemma {:induction false} AfterKeeps(f: Limit, times: seq<int>)
    requires f.n >= 0
    ensures var g := After(f, times); g.max == f.max && g.per == f.per && g.n >= 0
    decreases |times|
  {
    if times != [] { AfterKeeps(Ask(f, times[0]).0, times[1..]); }
  }

  predicate Sorted(s: seq<int>) {
    forall i, j :: 0 <= i < j < |s| ==> s[i] <= s[j]
  }

  /** No event of `times` starts a new period. */
  predicate SamePeriod(f: Limit, times: seq<int>) {
    forall i :: 0 <= i < |times| ==> times[i] < f.reset + f.per
  }

  lemma {:induction false} OnePeriod(f: Limit, times: seq<int>)
    requires f.per > 0 && SamePeriod(f, times)
    ensures Admitted(f, times) <= if f.n >= f.max then 0 else f.max - f.n
    decreases |times|
  {
    if times != [] {
      assert times[0] < f.reset + f.per;
      OnePeriod(Ask(f, times[0]).0, times[1..]);
    }
  }

  /** The events up to the first that starts a new period, then the rest. */
  lemma {:induction false} TwoPeriods(f: Limit, times: seq<int>)
    requires f.per > 0 && f.n >= 0 && Sorted(times)
    requires times != [] ==> times[|times| - 1] < f.reset + 2 * f.per
    ensures Admitted(f, times) <= (if f.n >= f.max then 0 else f.max - f.n) + f.max
    decreases |times|
  {
    if times != [] {
      var g := Ask(f, times[0]).0;
      var rest := times[1..];
      if times[0] < f.reset + f.per {
        TwoPeriods(g, rest);
      } else {
        assert SamePeriod(g, rest);
        OnePeriod(g, rest);
      }
    }
  }

  /** Any span of `per` seconds, ends included, lets at most twice `max` events through, whatever happened
      before it. */
  lemma {:induction false} TwiceMax(f: Limit, times: seq<int>)
    requires f.per > 0 && f.n >= 0 && Sorted(times)
    requires times != [] ==> times[|times| - 1] - times[0] <= f.per
    ensures Admitted(f, times) <= 2 * f.max
  {
    if times != [] {
      var g := Ask(f, times[0]).0;
      if times[0] < f.reset + f.per {
        TwoPeriods(f, times);
      } else {
        TwoPeriods(g, times[1..]);
      }
    }
  }

  /** `k` events at the same time. */
  function Burst(k: nat, t: int): seq<int> {
    if k == 0 then [] else [t] + Burst(k - 1, t)
  }

  lemma {:induction false} BurstAdmitted(f: Limit, k: nat, t: int, rest: seq<int>)
    requires f.per > 0 && t < f.reset + f.per && 0 <= f.n && f.n + k <= f.max
    ensures Admitted(f, Burst(k, t) + rest) == k + Admitted(f.(n := f.n + k), rest)
    decreases k
  {
    if k == 0 {
      assert Burst(0, t) + rest == rest;
    } else {
      assert (Burst(k, t) + rest)[1..] == Burst(k - 1, t) + rest;
      BurstAdmitted(Ask(f, t).0, k - 1, t, rest);
    }
  }

  /** The bound is reached: `max` events in the last second of a period and `max` in the next second. */
  lemma TwiceMaxReached(max: nat, per: nat)
    requires per > 0 && max > 0
    ensures var f := Limit(max, per, 0, 0);
            Admitted(f, Burst(max, per - 1) + Burst(max, per)) == 2 * max
  {
    var f := Limit(max, per, 0, 0);
    var late := Burst(max, per);
    BurstAdmitted(f, max, per - 1, late);
    var g := f.(n := max);
    assert late[1..] == Burst(max - 1, per);
    var g' := Ask(g, per).0;
    assert g' == Limit(max, per, 1, per);
    assert Burst(max - 1, per) + [] == Burst(max - 1, per);
    BurstAdmitted(g', max - 1, per, []);
  }

  // ---- the limiter on the filtered clock

  datatype Event = Read(reading: Reading) | NewConnection

  /** The filtered time of each new connection. */
  function Connections(c: Time, events: seq<Event>): seq<int>
    decreases |events|
  {
    if events == [] then []
    else match events[0]
      case Read(r) => Connections(Update(c, r), events[1..])
      case NewConnection => [c.now] + Connections(c, events[1..])
  }

  lemma {:induction false} ConnectionsSorted(c: Time, events: seq<Event>)
    requires c.adj >= 0
    ensures Sorted(Connections(c, events)) && forall i :: 0 <= i < |Connections(c, events)| ==>
            c.now <= Connections(c, events)[i]
    decreases |events|
  {
    if events != [] {
      match events[0]
      case Read(r) =>
        UpdateStep(c, r);
        ConnectionsSorted(Update(c, r), events[1..]);
      case NewConnection =>
        ConnectionsSorted(c, events[1..]);
    }
  }

  /** However the system's clock jumps, connections `a` to `b` that fall within `per` seconds of filtered time
      are let through at most twice `max` times. */
  lemma {:induction false} ConnectionLimit(c: Time, events: seq<Event>, f: Limit, a: nat, b: nat)
    requires c.adj >= 0 && f.per > 0 && f.n >= 0
    requires var times := Connections(c, events); a <= b < |times| && times[b] - times[a] <= f.per
    ensures var times := Connections(c, events); Admitted(After(f, times[..a]), times[a..b + 1]) <= 2 * f.max
  {
    ConnectionsSorted(c, events);
    var times := Connections(c, events);
    AfterKeeps(f, times[..a]);
    TwiceMax(After(f, times[..a]), times[a..b + 1]);
  }

  // ---- the variables

  class Globals {
    var now: int
    var nowAdj: int
    var nowUsec: int

    ghost function Value(): Time
      reads this
    {
      Time(now, nowAdj, nowUsec)
    }

    constructor ()
      ensures Value() == Time(0, 0, 0)
    {
      now, nowAdj, nowUsec := 0, 0, 0;
    }

    method Update(systemTime: int)
      requires nowAdj >= 0
      modifies this`now, this`nowAdj
      ensures Value() == UpdateNow(old(Value()), systemTime)
      ensures old(now) <= now && NotLater(old(Value()), Value()) && nowAdj >= 0 && Tracks(Value(), systemTime)
    {
      var realTime := systemTime + nowAdj;
      if realTime > now {
        var overshoot := realTime - now - 1;
        if overshoot > FORWARD_THRESHOLD && nowAdj >= overshoot {
          nowAdj := nowAdj - overshoot;
          realTime := realTime - overshoot;
        }
        now := realTime;
      } else if realTime < now - BACKWARD_TRIGGER {
        nowAdj := nowAdj + (now - realTime);
      }
    }

    method UpdateUsec(systemTime: int, usec: int)
      requires nowAdj >= 0
      modifies this
      ensures Value() == UpdateNowUsec(old(Value()), systemTime, usec)
      ensures NotLater(old(Value()), Value()) && nowAdj >= 0
    {
      var last := now;
      Update(systemTime);
      if now > last || (now == last && usec > nowUsec) {
        nowUsec := usec;
      }
    }
  }

  class FrequencyLimit {
    const max: nat
    const per: nat
    var n: int
    var reset: int

    ghost function Value(): Limit
      reads this
    {
      Limit(max, per, n, reset)
    }

    constructor (max: nat, per: nat)
      ensures Value() == Limit(max, per, 0, 0)
    {
      this.max, this.per, n, reset := max, per, 0, 0;
    }

    method EventAllowed(now: int) returns (ret: bool)
      modifies this
      ensures (Value(), ret) == Ask(old(Value()), now)
    {
      if per != 0 {
        if now >= reset + per {
          reset := now;
          n := 0;
        }
        n := n + 1;
        ret := n <= max;
      } else {
        ret := true;
      }
    }
  }
}
