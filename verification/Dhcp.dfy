/**
 * Removal of the router option from a DHCP option field, in place (sections 3.1, 3.2, 3.5 and 9.6 of RFC 2132).
 *
 * The scan does not advance after a deletion: it looks again at the byte that moved into the gap, and
 * the gap's length appears as padding at the end of the field.
 */
module Dhcp {

  import opened Basics
  import opened Sequences

  const PAD: byte := 0
  const ROUTER: byte := 3
  const MSG_TYPE: byte := 53
  const END: byte := 255

  const DHCPOFFER := 2
  const DHCPACK := 5

  // ---- the option field as a list of options

  datatype Option = Option(code: byte, data: seq<byte>)

  /** `s` starts with an option that lies wholly inside `s`. */
  predicate Fits(s: seq<byte>) {
    |s| >= 2 && Size(s) <= |s|
  }

  /** The length of the option at the start of `s`: code, length byte and data. */
  function Size(s: seq<byte>): (n: nat)
    requires |s| >= 2
    ensures n >= 2
  {
    2 + s[1] as int
  }

  /** Padding and complete options up to END or to the end of the field. */
  ghost predicate WellFormed(s: seq<byte>) {
    s == [] || s[0] == END ||
    if s[0] == PAD then WellFormed(s[1..]) else Fits(s) && WellFormed(s[Size(s)..])
  }

  /** The options before END, without the padding. */
  ghost function Options(s: seq<byte>): seq<Option> {
    if s == [] || s[0] == END then []
    else if s[0] == PAD then Options(s[1..])
    else if Fits(s) then [Option(s[0], s[2..Size(s)])] + Options(s[Size(s)..])
    else []
  }

  ghost function OthersThanRouter(opts: seq<Option>): seq<Option> {
    if opts == [] then []
    else (if opts[0].code == ROUTER then [] else [opts[0]]) + OthersThanRouter(opts[1..])
  }

  function Address(data: seq<byte>): nat
    requires |data| >= 4
  {
    ((data[0] as int * 256 + data[1] as int) * 256 + data[2] as int) * 256 + data[3] as int
  }

  /** What a router option says, or 0 when its length is not a positive multiple of four. */
  function RouterAddress(data: seq<byte>): nat {
    if |data| >= 4 && |data| % 4 == 0 then Address(data) else 0
  }

  /** The first non-zero address of a router option. */
  ghost function FirstRouter(opts: seq<Option>): nat {
    if opts == [] then 0
    else if opts[0].code == ROUTER && RouterAddress(opts[0].data) != 0 then RouterAddress(opts[0].data)
    else FirstRouter(opts[1..])
  }

  /** The value of the first message type option, or -1 when there is none or its length is not one. */
  ghost function TypeOf(opts: seq<Option>): int {
    if opts == [] then -1
    else if opts[0].code == MSG_TYPE then if |opts[0].data| == 1 then opts[0].data[0] else -1
    else TypeOf(opts[1..])
  }

  // ---- the scan

  ghost function Pads(n: nat): (s: seq<byte>)
    ensures |s| == n
  {
    if n == 0 then [] else [PAD] + Pads(n - 1)
  }

  lemma {:induction false} PadsAt(n: nat, k: nat)
    requires k < n
    ensures Pads(n)[k] == PAD
  {
    if k > 0 { PadsAt(n - 1, k - 1); }
  }

  ghost function RouterBytes(s: seq<byte>): nat {
    if s == [] then 0 else (if s[0] == ROUTER then 1 else 0) + RouterBytes(s[1..])
  }

  lemma {:induction false} RouterBytesSplit(s: seq<byte>, n: nat)
    requires n <= |s|
    ensures RouterBytes(s) == RouterBytes(s[..n]) + RouterBytes(s[n..])
  {
    if n > 0 {
      RouterBytesSplit(s[1..], n - 1);
      assert s[1..][..n - 1] == s[..n][1..] && s[1..][n - 1..] == s[n..];
    } else {
      assert s[..0] == [] && s[0..] == s;
    }
  }

  lemma {:induction false} RouterBytesPads(n: nat)
    ensures RouterBytes(Pads(n)) == 0
  {
    if n > 0 {
      assert Pads(n)[1..] == Pads(n - 1);
      RouterBytesPads(n - 1);
    }
  }

  /** The field after the option at its start is deleted: what follows moves down and the end is padded. */
  ghost function Delete(s: seq<byte>): (r: seq<byte>)
    requires Fits(s)
    ensures |r| == |s|
  {
    s[Size(s)..] + Pads(Size(s))
  }

  /** Deleting a router option leaves fewer router-valued bytes. */
  lemma DeleteShrinks(s: seq<byte>)
    requires Fits(s) && s[0] == ROUTER
    ensures RouterBytes(Delete(s)) < RouterBytes(s)
  {
    var n := Size(s);
    RouterBytesSplit(s, n);
    RouterBytesSplit(Delete(s), |s| - n);
    assert Delete(s)[..|s| - n] == s[n..] && Delete(s)[|s| - n..] == Pads(n);
    RouterBytesPads(n);
    RouterBytesSplit(s[..n], 1);
    assert s[..n][..1] == [ROUTER];
  }

  lemma DropShrinks(s: seq<byte>, n: nat)
    requires n <= |s|
    ensures RouterBytes(s[n..]) <= RouterBytes(s)
  {
    RouterBytesSplit(s, n);
  }

  /** The address kept once an option with this data is met. */
  function Keep(ret: nat, data: seq<byte>): nat {
    if ret == 0 then RouterAddress(data) else ret
  }

  /** The rest `s` of the field at the end of the scan. It ends on every input: a deletion leaves fewer
      router-valued bytes, every other step fewer bytes. */
  ghost function Scan(s: seq<byte>): (r: seq<byte>)
    ensures |r| == |s|
    decreases RouterBytes(s), |s|
  {
    if s == [] || s[0] == END then s
    else if s[0] == PAD then
      DropShrinks(s, 1);
      [PAD] + Scan(s[1..])
    else if !Fits(s) then s
    else if s[0] == ROUTER then
      DeleteShrinks(s);
      Scan(Delete(s))
    else
      DropShrinks(s, Size(s));
      s[..Size(s)] + Scan(s[Size(s)..])
  }

  /** The address at the end of the scan of `s` that begins with `ret`. */
  ghost function Found(s: seq<byte>, ret: nat): nat
    decreases RouterBytes(s), |s|
  {
    if s == [] || s[0] == END then ret
    else if s[0] == PAD then
      DropShrinks(s, 1);
      Found(s[1..], ret)
    else if !Fits(s) then ret
    else if s[0] == ROUTER then
      DeleteShrinks(s);
      Found(Delete(s), Keep(ret, s[2..Size(s)]))
    else
      DropShrinks(s, Size(s));
      Found(s[Size(s)..], ret)
  }

  // ---- what the scan does, on every input

  /** Nothing the scan can reach is a complete router option. */
  ghost predicate NoRouter(s: seq<byte>) {
    s == [] || s[0] == END ||
    if s[0] == PAD then NoRouter(s[1..])
    else Fits(s) ==> s[0] != ROUTER && NoRouter(s[Size(s)..])
  }

  lemma {:induction false} ScanRemoves(s: seq<byte>)
    ensures NoRouter(Scan(s))
    decreases RouterBytes(s), |s|
  {
    if s == [] || s[0] == END {
    } else if s[0] == PAD {
      DropShrinks(s, 1);
      ScanRemoves(s[1..]);
      assert Scan(s)[1..] == Scan(s[1..]);
    } else if Fits(s) {
      if s[0] == ROUTER {
        DeleteShrinks(s);
        ScanRemoves(Delete(s));
      } else {
        var n := Size(s);
        DropShrinks(s, n);
        ScanRemoves(s[n..]);
        var t := Scan(s);
        assert t[n..] == Scan(s[n..]) && t[0] == s[0] && t[1] == s[1];
      }
    }
  }

  lemma {:induction false} ScanIdle(s: seq<byte>, ret: nat)
    requires NoRouter(s)
    ensures Scan(s) == s && Found(s, ret) == ret
  {
    if s == [] || s[0] == END {
    } else if s[0] == PAD {
      ScanIdle(s[1..], ret);
      assert s == s[..1] + s[1..];
    } else if Fits(s) {
      ScanIdle(s[Size(s)..], ret);
      assert s == s[..Size(s)] + s[Size(s)..];
    }
  }

  /** A second pass changes nothing and finds no router, whatever the field. */
  lemma {:induction false} SecondPass(s: seq<byte>)
    ensures Scan(Scan(s)) == Scan(s) && Found(Scan(s), 0) == 0
  {
    ScanRemoves(s);
    ScanIdle(Scan(s), 0);
  }

  // ---- what the scan does to a well-formed field

  /** The field with its router options cut out. */
  ghost function Cut(s: seq<byte>): (r: seq<byte>)
    ensures |r| <= |s|
  {
    if s == [] || s[0] == END then s
    else if s[0] == PAD then [PAD] + Cut(s[1..])
    else if !Fits(s) then s
    else (if s[0] == ROUTER then [] else s[..Size(s)]) + Cut(s[Size(s)..])
  }

  lemma {:induction false} NoRouterPads(n: nat)
    ensures NoRouter(Pads(n))
  {
    if n > 0 {
      assert Pads(n)[1..] == Pads(n - 1);
      NoRouterPads(n - 1);
    }
  }

  lemma {:induction false} PadsConcat(a: nat, b: nat)
    ensures Pads(a) + Pads(b) == Pads(a + b)
  {
    if a == 0 {
      assert [] + Pads(b) == Pads(b);
    } else {
      PadsConcat(a - 1, b);
      Associative([PAD], Pads(a - 1), Pads(b));
    }
  }

  /** The padding behind `s` once its routers are cut out and `n` bytes of padding were there before. */
  ghost function Spare(s: seq<byte>, n: nat): nat {
    n + |s| - |Cut(s)|
  }

  /** The scan of `s` with `n` bytes of padding behind it cuts the routers out. */
  ghost predicate Cuts(s: seq<byte>, n: nat) {
    Scan(s + Pads(n)) == Cut(s) + Pads(Spare(s, n))
  }

  lemma {:induction false} ScanPadded(s: seq<byte>, n: nat)
    requires WellFormed(s)
    ensures Cuts(s, n)
    decreases |s|
  {
    if s == [] || s[0] == END {
      CutsEnd(s, n);
    } else if s[0] == PAD {
      ScanPadded(s[1..], n);
      CutsPad(s, n);
    } else if s[0] == ROUTER {
      ScanPadded(s[Size(s)..], n + Size(s));
      CutsRouter(s, n);
    } else {
      ScanPadded(s[Size(s)..], n);
      CutsOther(s, n);
    }
  }

  lemma CutsEnd(s: seq<byte>, n: nat)
    requires s == [] || s[0] == END
    ensures Cuts(s, n)
  {
    assert Cut(s) == s && Spare(s, n) == n;
    if s == [] {
      NoRouterPads(n);
      ScanIdle(Pads(n), 0);
      assert s + Pads(n) == Pads(n);
    } else {
      ScanEnd(s + Pads(n));
    }
  }

  lemma ScanEnd(s: seq<byte>)
    requires s != [] && s[0] == END
    ensures Scan(s) == s
  {}

  lemma CutsPad(s: seq<byte>, n: nat)
    requires s != [] && s[0] == PAD && Cuts(s[1..], n)
    ensures Cuts(s, n)
  {
    ScanPadPadded(s, n);
    SparePad(s, n);
    Associative([PAD], Cut(s[1..]), Pads(Spare(s, n)));
  }

  lemma CutsRouter(s: seq<byte>, n: nat)
    requires Fits(s) && s[0] == ROUTER && Cuts(s[Size(s)..], n + Size(s))
    ensures Cuts(s, n)
  {
    ScanRouterPadded(s, n);
    SpareRouter(s, n);
  }

  lemma SpareRouter(s: seq<byte>, n: nat)
    requires Fits(s) && s[0] == ROUTER
    ensures Cut(s) == Cut(s[Size(s)..]) && Spare(s, n) == Spare(s[Size(s)..], n + Size(s))
  {
    CutRouter(s);
  }

  lemma SparePad(s: seq<byte>, n: nat)
    requires s != [] && s[0] == PAD
    ensures Cut(s) == [PAD] + Cut(s[1..]) && Spare(s, n) == Spare(s[1..], n)
  {}

  lemma SpareOther(s: seq<byte>, n: nat)
    requires Fits(s) && s[0] != END && s[0] != PAD && s[0] != ROUTER
    ensures Cut(s) == s[..Size(s)] + Cut(s[Size(s)..]) && Spare(s, n) == Spare(s[Size(s)..], n)
  {}

  lemma ScanPadPadded(s: seq<byte>, n: nat)
    requires s != [] && s[0] == PAD
    ensures Scan(s + Pads(n)) == [PAD] + Scan(s[1..] + Pads(n))
  {
    Slices(s, Pads(n), 1);
  }

  lemma ScanRouterPadded(s: seq<byte>, n: nat)
    requires Fits(s) && s[0] == ROUTER
    ensures Scan(s + Pads(n)) == Scan(s[Size(s)..] + Pads(n + Size(s)))
  {
    DeletePadded(s, n);
    ScanRouter(s + Pads(n), s[Size(s)..] + Pads(n + Size(s)));
  }

  lemma ScanRouter(s: seq<byte>, t: seq<byte>)
    requires Fits(s) && s[0] == ROUTER && t == Delete(s)
    ensures Scan(s) == Scan(t)
  {}

  lemma CutRouter(s: seq<byte>)
    requires Fits(s) && s[0] == ROUTER
    ensures Cut(s) == Cut(s[Size(s)..])
  {
    assert [] + Cut(s[Size(s)..]) == Cut(s[Size(s)..]);
  }

  lemma CutsOther(s: seq<byte>, n: nat)
    requires Fits(s) && s[0] != END && s[0] != PAD && s[0] != ROUTER && Cuts(s[Size(s)..], n)
    ensures Cuts(s, n)
  {
    ScanOtherPadded(s, n);
    SpareOther(s, n);
    Associative(s[..Size(s)], Cut(s[Size(s)..]), Pads(Spare(s, n)));
  }

  lemma Slices(a: seq<byte>, b: seq<byte>, m: nat)
    requires m <= |a|
    ensures (a + b)[m..] == a[m..] + b && (a + b)[..m] == a[..m]
  {}

  lemma DeletePadded(s: seq<byte>, n: nat)
    requires Fits(s)
    ensures Fits(s + Pads(n)) && Delete(s + Pads(n)) == s[Size(s)..] + Pads(n + Size(s))
    ensures (s + Pads(n))[2..Size(s)] == s[2..Size(s)]
  {
    Slices(s, Pads(n), Size(s));
    PadsConcat(n, Size(s));
    Associative(s[Size(s)..], Pads(n), Pads(Size(s)));
  }

  /** The scan of `s` with padding behind it returns the first address, unless it already has one. */
  ghost predicate Finds(s: seq<byte>, n: nat, ret: nat) {
    Found(s + Pads(n), ret) == if ret == 0 then FirstRouter(Options(s)) else ret
  }

  lemma {:induction false} FoundPadded(s: seq<byte>, n: nat, ret: nat)
    requires WellFormed(s)
    ensures Finds(s, n, ret)
    decreases |s|
  {
    if s == [] || s[0] == END {
      FindsEnd(s, n, ret);
    } else if s[0] == PAD {
      FoundPadded(s[1..], n, ret);
      Slices(s, Pads(n), 1);
    } else if s[0] == ROUTER {
      FoundPadded(s[Size(s)..], n + Size(s), Keep(ret, s[2..Size(s)]));
      FindsRouter(s, n, ret);
    } else {
      FoundPadded(s[Size(s)..], n, ret);
      FindsOther(s, n, ret);
    }
  }

  lemma FindsEnd(s: seq<byte>, n: nat, ret: nat)
    requires s == [] || s[0] == END
    ensures Finds(s, n, ret)
  {
    if s == [] {
      assert s + Pads(n) == Pads(n);
      NoRouterPads(n);
      ScanIdle(Pads(n), ret);
    } else {
      assert (s + Pads(n))[0] == END;
    }
  }

  lemma FindsRouter(s: seq<byte>, n: nat, ret: nat)
    requires Fits(s) && s[0] == ROUTER && Finds(s[Size(s)..], n + Size(s), Keep(ret, s[2..Size(s)]))
    ensures Finds(s, n, ret)
  {
    FirstRouterStep(s);
    DeletePadded(s, n);
  }

  lemma FindsOther(s: seq<byte>, n: nat, ret: nat)
    requires Fits(s) && s[0] != END && s[0] != PAD && s[0] != ROUTER && Finds(s[Size(s)..], n, ret)
    ensures Finds(s, n, ret)
  {
    FirstRouterStep(s);
    Slices(s, Pads(n), Size(s));
  }

  lemma FirstRouterStep(s: seq<byte>)
    requires s != [] && s[0] != END && s[0] != PAD && Fits(s)
    ensures Options(s)[1..] == Options(s[Size(s)..]) && Options(s)[0] == Option(s[0], s[2..Size(s)])
    ensures FirstRouter(Options(s)) ==
            if s[0] == ROUTER && RouterAddress(s[2..Size(s)]) != 0 then RouterAddress(s[2..Size(s)])
            else FirstRouter(Options(s[Size(s)..]))
    ensures OthersThanRouter(Options(s)) ==
            (if s[0] == ROUTER then [] else [Options(s)[0]]) + OthersThanRouter(Options(s[Size(s)..]))
  {
    assert Options(s) == [Option(s[0], s[2..Size(s)])] + Options(s[Size(s)..]);
  }

  /** `t` holds the options of `s` other than routers. */
  ghost predicate KeepsOthers(s: seq<byte>, t: seq<byte>) {
    WellFormed(t) && Options(t) == OthersThanRouter(Options(s))
  }

  /** The other options are kept, in order and unchanged, and padding adds none. */
  lemma {:induction false} CutKeepsOthers(s: seq<byte>, n: nat)
    requires WellFormed(s)
    ensures KeepsOthers(s, Cut(s) + Pads(n))
    decreases |s|
  {
    if s == [] {
      assert Cut(s) + Pads(n) == Pads(n);
      OptionsOfPads(n);
    } else if s[0] == END {
      assert (s + Pads(n))[0] == END;
    } else if s[0] == PAD {
      CutKeepsOthers(s[1..], n);
      CutPad(s, n);
    } else {
      CutKeepsOthers(s[Size(s)..], n);
      CutOption(s, n);
    }
  }

  lemma CutPad(s: seq<byte>, n: nat)
    requires s != [] && s[0] == PAD && KeepsOthers(s[1..], Cut(s[1..]) + Pads(n))
    ensures KeepsOthers(s, Cut(s) + Pads(n))
  {
    Associative([PAD], Cut(s[1..]), Pads(n));
    PrefixedPad(Cut(s[1..]) + Pads(n));
  }

  lemma PrefixedPad(s: seq<byte>)
    ensures WellFormed([PAD] + s) == WellFormed(s) && Options([PAD] + s) == Options(s)
  {
    assert ([PAD] + s)[1..] == s;
  }

  lemma CutOption(s: seq<byte>, n: nat)
    requires Fits(s) && s[0] != END && s[0] != PAD
    requires KeepsOthers(s[Size(s)..], Cut(s[Size(s)..]) + Pads(n))
    ensures KeepsOthers(s, Cut(s) + Pads(n))
  {
    FirstRouterStep(s);
    if s[0] == ROUTER {
      CutRouter(s);
      assert [] + OthersThanRouter(Options(s[Size(s)..])) == OthersThanRouter(Options(s[Size(s)..]));
    } else {
      CutOther(s, n);
      Prefixed(s[..Size(s)], Cut(s[Size(s)..]) + Pads(n));
    }
  }

  lemma CutOther(s: seq<byte>, n: nat)
    requires Fits(s) && s[0] != END && s[0] != PAD && s[0] != ROUTER
    ensures Cut(s) + Pads(n) == s[..Size(s)] + (Cut(s[Size(s)..]) + Pads(n)) && s[..Size(s)][2..] == s[2..Size(s)]
  {
    Associative(s[..Size(s)], Cut(s[Size(s)..]), Pads(n));
  }

  lemma Prefixed(option: seq<byte>, s: seq<byte>)
    requires |option| >= 2 && |option| == Size(option) && option[0] != END && option[0] != PAD && WellFormed(s)
    ensures WellFormed(option + s) && Options(option + s) == [Option(option[0], option[2..])] + Options(s)
  {
    var t, m := option + s, Size(option);
    assert t[m..] == s && t[2..m] == option[2..] && t[0] == option[0] && t[1] == option[1];
  }

  lemma {:induction false} OptionsOfPads(n: nat)
    ensures WellFormed(Pads(n)) && Options(Pads(n)) == []
  {
    if n > 0 {
      OptionsOfPads(n - 1);
      assert Pads(n)[1..] == Pads(n - 1);
    }
  }

  /** On a well-formed field the scan removes the router options and nothing else: the other options keep
      their order and contents, the field stays well-formed, padding fills the end, and the address is the
      first non-zero one among the router options. */
  lemma {:induction false} WellFormedScan(s: seq<byte>)
    requires WellFormed(s)
    ensures var t := Scan(s);
            && t == Cut(s) + Pads(|s| - |Cut(s)|)
            && WellFormed(t) && Options(t) == OthersThanRouter(Options(s))
            && Found(s, 0) == FirstRouter(Options(s))
  {
    assert s + Pads(0) == s;
    ScanPadded(s, 0);
    FoundPadded(s, 0, 0);
    CutKeepsOthers(s, |s| - |Cut(s)|);
  }

  // ---- what the scan does to any field

  /** The option that a cut-off one at the end of `s` becomes when `n` bytes of padding, and those of the router
      options deleted before it, follow it: none when there is no such option or the padding is too short. A
      router option completed in this way is deleted too. */
  ghost function Completed(s: seq<byte>, n: nat): seq<Option> {
    if s == [] || s[0] == END then []
    else if s[0] == PAD then Completed(s[1..], n)
    else if Fits(s) then Completed(s[Size(s)..], n + if s[0] == ROUTER then Size(s) else 0)
    else
      var t := s + Pads(n);
      if s[0] != ROUTER && Fits(t) then [Option(s[0], t[2..Size(t)])] else []
  }

  /** When that happens, from the field alone: one byte is completed by any padding, more by padding for all the
      bytes that are missing. */
  ghost predicate Completes(s: seq<byte>, n: nat) {
    if s == [] || s[0] == END then false
    else if s[0] == PAD then Completes(s[1..], n)
    else if Fits(s) then Completes(s[Size(s)..], n + if s[0] == ROUTER then Size(s) else 0)
    else s[0] != ROUTER && n > 0 && (|s| == 1 || Size(s) <= |s| + n)
  }

  lemma {:induction false} CompletesExactly(s: seq<byte>, n: nat)
    ensures Completed(s, n) != [] <==> Completes(s, n)
    decreases |s|
  {
    if s == [] || s[0] == END {
    } else if s[0] == PAD {
      CompletesExactly(s[1..], n);
    } else if Fits(s) {
      CompletesExactly(s[Size(s)..], n + if s[0] == ROUTER then Size(s) else 0);
    } else {
      FitsPadded(s, n);
    }
  }

  lemma FitsPadded(s: seq<byte>, n: nat)
    requires s != [] && !Fits(s)
    ensures Fits(s + Pads(n)) <==> n > 0 && (|s| == 1 || Size(s) <= |s| + n)
  {
    var t := s + Pads(n);
    if |s| == 1 {
      if n > 0 {
        PadsAt(n, 0);
        assert t[1] == PAD;
      }
    } else {
      assert t[1] == s[1];
    }
  }

  /** The scan of `s` with padding behind it leaves the other options and the completed one. */
  ghost predicate Leaves(s: seq<byte>, n: nat) {
    Options(Scan(s + Pads(n))) == OthersThanRouter(Options(s)) + Completed(s, n)
  }

  lemma {:induction false} OptionsAfterScan(s: seq<byte>, n: nat)
    ensures Leaves(s, n)
    decreases |s|
  {
    if s == [] || s[0] == END {
      LeavesEnd(s, n);
    } else if s[0] == PAD {
      OptionsAfterScan(s[1..], n);
      LeavesPad(s, n);
    } else if !Fits(s) {
      LeavesCutOff(s, n);
    } else if s[0] == ROUTER {
      OptionsAfterScan(s[Size(s)..], n + Size(s));
      LeavesRouter(s, n);
    } else {
      OptionsAfterScan(s[Size(s)..], n);
      LeavesOther(s, n);
    }
  }

  lemma LeavesEnd(s: seq<byte>, n: nat)
    requires s == [] || s[0] == END
    ensures Leaves(s, n)
  {
    if s == [] {
      assert s + Pads(n) == Pads(n);
      OptionsOfPads(n);
      NoRouterPads(n);
      ScanIdle(Pads(n), 0);
    } else {
      assert (s + Pads(n))[0] == END;
    }
  }

  lemma LeavesPad(s: seq<byte>, n: nat)
    requires s != [] && s[0] == PAD && Leaves(s[1..], n)
    ensures Leaves(s, n)
  {
    ScanPadPadded(s, n);
    PrefixedPad(Scan(s[1..] + Pads(n)));
  }

  lemma LeavesRouter(s: seq<byte>, n: nat)
    requires Fits(s) && s[0] == ROUTER && Leaves(s[Size(s)..], n + Size(s))
    ensures Leaves(s, n)
  {
    FirstRouterStep(s);
    ScanRouterPadded(s, n);
    var others := OthersThanRouter(Options(s[Size(s)..]));
    assert [] + others == others;
  }

  lemma LeavesOther(s: seq<byte>, n: nat)
    requires Fits(s) && s[0] != END && s[0] != PAD && s[0] != ROUTER && Leaves(s[Size(s)..], n)
    ensures Leaves(s, n)
  {
    FirstRouterStep(s);
    ScanOtherPadded(s, n);
    assert s[..Size(s)][2..] == s[2..Size(s)] && s[..Size(s)][0] == s[0] && s[..Size(s)][1] == s[1];
    OptionBefore(s[..Size(s)], Scan(s[Size(s)..] + Pads(n)));
    Associative([Options(s)[0]], OthersThanRouter(Options(s[Size(s)..])), Completed(s[Size(s)..], n));
  }

  lemma ScanOtherPadded(s: seq<byte>, n: nat)
    requires Fits(s) && s[0] != END && s[0] != PAD && s[0] != ROUTER
    ensures Scan(s + Pads(n)) == s[..Size(s)] + Scan(s[Size(s)..] + Pads(n))
  {
    Slices(s, Pads(n), Size(s));
    var t := s + Pads(n);
    assert t[0] == s[0] && t[1] == s[1];
    ScanOther(t);
  }

  lemma ScanOther(s: seq<byte>)
    requires Fits(s) && s[0] != END && s[0] != PAD && s[0] != ROUTER
    ensures Scan(s) == s[..Size(s)] + Scan(s[Size(s)..])
  {}

  /** A complete option in front of any bytes. */
  lemma OptionBefore(option: seq<byte>, s: seq<byte>)
    requires |option| >= 2 && |option| == Size(option) && option[0] != END && option[0] != PAD
    ensures Options(option + s) == [Option(option[0], option[2..])] + Options(s)
  {
    var t, m := option + s, Size(option);
    assert t[m..] == s && t[2..m] == option[2..] && t[0] == option[0] && t[1] == option[1];
  }

  lemma LeavesCutOff(s: seq<byte>, n: nat)
    requires s != [] && s[0] != END && s[0] != PAD && !Fits(s)
    ensures Leaves(s, n)
  {
    var t := s + Pads(n);
    assert t[0] == s[0];
    if Fits(t) {
      CutOffSize(s, n);
      PadsTail(s, n, Size(t));
      OptionsCompleted(t);
    }
  }

  lemma OptionsCompleted(t: seq<byte>)
    requires Fits(t) && t[0] != END && t[0] != PAD && t[Size(t)..] == Pads(|t| - Size(t))
    ensures Options(Scan(t)) == if t[0] == ROUTER then [] else [Option(t[0], t[2..Size(t)])]
  {
    if t[0] == ROUTER {
      PadsConcat(|t| - Size(t), Size(t));
      ScanRouter(t, Pads(|t|));
      ScanOfPads(|t|);
    } else {
      OptionsOtherCompleted(t, Size(t));
    }
  }

  lemma OptionsOtherCompleted(t: seq<byte>, m: nat)
    requires Fits(t) && t[0] != END && t[0] != PAD && t[0] != ROUTER && m == Size(t) && t[m..] == Pads(|t| - m)
    ensures Options(Scan(t)) == [Option(t[0], t[2..m])]
  {
    ScanOfPads(|t| - m);
    assert Scan(t) == t[..m] + Pads(|t| - m);
    assert t[..m][2..] == t[2..m] && t[..m][0] == t[0] && t[..m][1] == t[1];
    OptionBefore(t[..m], Pads(|t| - m));
  }

  lemma ScanOfPads(n: nat)
    ensures Scan(Pads(n)) == Pads(n) && Options(Pads(n)) == []
  {
    OptionsOfPads(n);
    NoRouterPads(n);
    ScanIdle(Pads(n), 0);
  }

  /** Whatever the field, exactly the other options are left if and only if no cut-off option is completed;
      otherwise they and the completed one are left. */
  lemma {:induction false} OthersLeft(s: seq<byte>)
    ensures Options(Scan(s)) == OthersThanRouter(Options(s)) + Completed(s, 0)
    ensures Options(Scan(s)) == OthersThanRouter(Options(s)) <==> !Completes(s, 0)
  {
    assert s + Pads(0) == s;
    OptionsAfterScan(s, 0);
    CompletesExactly(s, 0);
    var others := OthersThanRouter(Options(s));
    if Completed(s, 0) == [] {
      assert others + [] == others;
    } else {
      assert |others + Completed(s, 0)| > |others|;
    }
  }

  // ---- the message type

  /** The scan for the message type from the start of `s`. */
  ghost function MessageType(s: seq<byte>): int {
    if s == [] || s[0] == END then -1
    else if s[0] == PAD then MessageType(s[1..])
    else if s[0] == MSG_TYPE then if |s| >= 3 && s[1] == 1 then s[2] else -1
    else if Fits(s) then MessageType(s[Size(s)..])
    else -1
  }

  lemma {:induction false} MessageTypeOfOptions(s: seq<byte>)
    requires WellFormed(s)
    ensures MessageType(s) == TypeOf(Options(s))
  {
    if s == [] || s[0] == END {
    } else if s[0] == PAD {
      MessageTypeOfOptions(s[1..]);
    } else {
      FirstRouterStep(s);
      MessageTypeOfOptions(s[Size(s)..]);
    }
  }

  /** A message type option at the end of the field, cut off after its length byte, behind a router option
      that is deleted: padding then takes the place of its value. */
  ghost predicate CutOffType(s: seq<byte>, padded: bool) {
    if s == [] || s[0] == END then false
    else if s[0] == PAD then CutOffType(s[1..], padded)
    else if s[0] == MSG_TYPE then padded && s == [MSG_TYPE, 1]
    else if Fits(s) then CutOffType(s[Size(s)..], padded || s[0] == ROUTER)
    else false
  }

  lemma {:induction false} TypeOfPads(n: nat)
    ensures MessageType(Pads(n)) == -1 && Scan(Pads(n)) == Pads(n)
  {
    NoRouterPads(n);
    ScanIdle(Pads(n), 0);
    if n > 0 {
      assert Pads(n)[1..] == Pads(n - 1);
      TypeOfPads(n - 1);
    }
  }

  lemma TypePast(option: seq<byte>, s: seq<byte>)
    requires |option| >= 2 && |option| == Size(option) && option[0] != END && option[0] != PAD && option[0] != MSG_TYPE
    ensures MessageType(option + s) == MessageType(s)
  {
    assert (option + s)[Size(option)..] == s && (option + s)[0] == option[0] && (option + s)[1] == option[1];
  }

  lemma TypePastPad(s: seq<byte>)
    ensures MessageType([PAD] + s) == MessageType(s)
  {
    assert ([PAD] + s)[1..] == s;
  }

  /** The scan keeps a message type option that stands first. */
  lemma TypeFirst(s: seq<byte>)
    requires s != [] && s[0] == MSG_TYPE
    ensures MessageType(Scan(s)) == MessageType(s)
  {
    if Fits(s) {
      var n := Size(s);
      var t := Scan(s);
      assert t[0] == s[0] && t[1] == s[1] && (|s| >= 3 && s[1] == 1 ==> t[2] == s[2]);
    }
  }

  lemma TypeFirstPadded(s: seq<byte>, n: nat)
    requires s != [] && s[0] == MSG_TYPE
    ensures MessageType(s + Pads(n)) == if n > 0 && s == [MSG_TYPE, 1] then 0 else MessageType(s)
  {
    var t := s + Pads(n);
    assert t[0] == MSG_TYPE;
    if |s| == 1 && n > 0 {
      PadsAt(n, 0);
      assert t[1] == PAD;
    } else if |s| == 2 && n > 0 {
      PadsAt(n, 0);
      assert t[2] == PAD && t[1] == s[1];
      assert s == [s[0], s[1]];
    } else if |s| >= 3 {
      assert t[1] == s[1] && t[2] == s[2];
    }
  }

  /** Padding that completes any other cut-off option leaves nothing behind it. */
  lemma TypeCutOff(s: seq<byte>, n: nat)
    requires s != [] && s[0] != END && s[0] != PAD && s[0] != MSG_TYPE && !Fits(s)
    ensures MessageType(Scan(s + Pads(n))) == -1
  {
    var t := s + Pads(n);
    assert t[0] == s[0];
    if Fits(t) {
      CutOffSize(s, n);
      PadsTail(s, n, Size(t));
      TypeCompleted(t);
    }
  }

  lemma TypeCompleted(t: seq<byte>)
    requires Fits(t) && t[0] != END && t[0] != PAD && t[0] != MSG_TYPE && t[Size(t)..] == Pads(|t| - Size(t))
    ensures MessageType(Scan(t)) == -1
  {
    if t[0] == ROUTER {
      PadsConcat(|t| - Size(t), Size(t));
      ScanRouter(t, Pads(|t|));
      TypeOfPads(|t|);
    } else {
      OtherCompleted(t, Size(t));
    }
  }

  lemma OtherCompleted(t: seq<byte>, m: nat)
    requires Fits(t) && t[0] != END && t[0] != PAD && t[0] != ROUTER && t[0] != MSG_TYPE
    requires m == Size(t) && t[m..] == Pads(|t| - m)
    ensures MessageType(Scan(t)) == -1
  {
    TypeOfPads(|t| - m);
    assert Scan(t) == t[..m] + Pads(|t| - m);
    assert t[..m][1] == t[1] && t[..m][0] == t[0];
    TypePast(t[..m], Pads(|t| - m));
  }

  lemma CutOffSize(s: seq<byte>, n: nat)
    requires s != [] && !Fits(s) && Fits(s + Pads(n))
    ensures Size(s + Pads(n)) >= |s|
  {
    if |s| >= 2 { assert (s + Pads(n))[1] == s[1]; }
  }

  lemma PadsTail(s: seq<byte>, n: nat, m: nat)
    requires |s| <= m <= |s| + n
    ensures (s + Pads(n))[m..] == Pads(|s| + n - m)
  {
    var k := m - |s|;
    PadsConcat(k, n - k);
    assert Pads(n)[k..] == Pads(n - k);
    assert (s + Pads(n))[m..] == Pads(n)[k..];
  }

  /** From `s` to the scan of `s` with padding behind it the type changes exactly by such an option, and
      then from none to the value of the padding. */
  ghost predicate TypeChange(s: seq<byte>, n: nat, padded: bool) {
    MessageType(Scan(s + Pads(n))) == if CutOffType(s, padded) then 0 else MessageType(s)
  }

  lemma {:induction false} TypeAfterScan(s: seq<byte>, n: nat)
    ensures TypeChange(s, n, n > 0)
    decreases |s|
  {
    if s == [] {
      assert s + Pads(n) == Pads(n);
      TypeOfPads(n);
    } else if s[0] == END {
      assert (s + Pads(n))[0] == END;
    } else if s[0] == PAD {
      TypeAfterScan(s[1..], n);
      ChangePad(s, n);
    } else if s[0] == MSG_TYPE {
      assert (s + Pads(n))[0] == MSG_TYPE;
      TypeFirst(s + Pads(n));
      TypeFirstPadded(s, n);
    } else if !Fits(s) {
      TypeCutOff(s, n);
    } else if s[0] == ROUTER {
      TypeAfterScan(s[Size(s)..], n + Size(s));
      ChangeRouter(s, n);
    } else {
      TypeAfterScan(s[Size(s)..], n);
      ChangeOther(s, n);
    }
  }

  lemma ChangePad(s: seq<byte>, n: nat)
    requires s != [] && s[0] == PAD && TypeChange(s[1..], n, n > 0)
    ensures TypeChange(s, n, n > 0)
  {
    ScanPadPadded(s, n);
    TypePastPad(Scan(s[1..] + Pads(n)));
  }

  lemma ChangeRouter(s: seq<byte>, n: nat)
    requires Fits(s) && s[0] == ROUTER && TypeChange(s[Size(s)..], n + Size(s), true)
    ensures TypeChange(s, n, n > 0)
  {
    ScanRouterPadded(s, n);
  }

  lemma ChangeOther(s: seq<byte>, n: nat)
    requires Fits(s) && s[0] != END && s[0] != PAD && s[0] != ROUTER && s[0] != MSG_TYPE
    requires TypeChange(s[Size(s)..], n, n > 0)
    ensures TypeChange(s, n, n > 0)
  {
    ScanOtherPadded(s, n);
    assert s[..Size(s)][1] == s[1];
    TypePast(s[..Size(s)], Scan(s[Size(s)..] + Pads(n)));
  }

  lemma {:induction false} CutOffHasNoType(s: seq<byte>, padded: bool)
    requires CutOffType(s, padded)
    ensures MessageType(s) == -1 && !WellFormed(s)
  {
    if s[0] == PAD {
      CutOffHasNoType(s[1..], padded);
    } else if s[0] != MSG_TYPE {
      CutOffHasNoType(s[Size(s)..], padded || s[0] == ROUTER);
    }
  }

  /** Whatever the field, removing routers changes the message type exactly when such an option is there:
      from none to 0. */
  lemma {:induction false} MessageTypeChanges(s: seq<byte>)
    ensures MessageType(Scan(s)) != MessageType(s) <==> CutOffType(s, false)
    ensures CutOffType(s, false) ==> MessageType(s) == -1 && MessageType(Scan(s)) == 0
  {
    assert s + Pads(0) == s;
    TypeAfterScan(s, 0);
    if CutOffType(s, false) { CutOffHasNoType(s, false); }
  }

  /** Such fields exist: any router option, then the first two bytes of a message type option. */
  lemma RouterThenCutOff(option: seq<byte>)
    requires |option| >= 2 && |option| == Size(option) && option[0] == ROUTER
    ensures CutOffType(option + [MSG_TYPE, 1], false)
  {
    var s := option + [MSG_TYPE, 1];
    assert s[0] == ROUTER && s[1] == option[1] && s[Size(s)..] == [MSG_TYPE, 1];
  }

  /** A type that was found is kept, on malformed fields too; on a well-formed field its absence is kept as
      well. */
  lemma {:induction false} MessageTypeKept(s: seq<byte>)
    ensures MessageType(s) >= 0 || WellFormed(s) ==> MessageType(Scan(s)) == MessageType(s)
  {
    MessageTypeChanges(s);
    if CutOffType(s, false) { CutOffHasNoType(s, false); }
  }

  // ---- the loops

  method GetMessageType(p: array<byte>) returns (r: int)
    ensures r == MessageType(p[..])
  {
    var i := 0;
    assert p[0..] == p[..];
    while i < p.Length
      invariant 0 <= i
      invariant if i <= p.Length then MessageType(p[i..]) == MessageType(p[..]) else MessageType(p[..]) == -1
    {
      ghost var s := p[i..];
      var type_, room := p[i], p.Length - i;
      if type_ == END {
        return -1;
      } else if type_ == PAD {
        assert s[1..] == p[i + 1..];
      } else if type_ == MSG_TYPE {
        if room >= 3 {
          if p[i + 1] == 1 { return p[i + 2]; }
        }
        return -1;
      } else if room >= 2 {
        assert Size(s) <= |s| ==> s[Size(s)..] == p[i + Size(s)..];
        i := i + (p[i + 1] as int + 1);
      }
      i := i + 1;
    }
    return -1;
  }

  /** memmove of the tail to `i`. */
  method MoveDown(p: array<byte>, i: nat, owlen: nat)
    requires i + owlen <= p.Length
    modifies p
    ensures forall j :: 0 <= j < i ==> p[j] == old(p[..])[j]
    ensures forall j :: i <= j < p.Length - owlen ==> p[j] == old(p[..])[j + owlen]
  {
    for k := i to p.Length - owlen
      invariant forall j :: 0 <= j < i ==> p[j] == old(p[..])[j]
      invariant forall j :: i <= j < k ==> p[j] == old(p[..])[j + owlen]
      invariant forall j :: k <= j < p.Length ==> p[j] == old(p[..])[j]
    {
      p[k] := p[k + owlen];
    }
  }

  /** memset of the last `owlen` bytes. */
  method PadEnd(p: array<byte>, owlen: nat)
    requires owlen <= p.Length
    modifies p
    ensures forall j :: 0 <= j < p.Length - owlen ==> p[j] == old(p[..])[j]
    ensures forall j :: p.Length - owlen <= j < p.Length ==> p[j] == PAD
  {
    for k := p.Length - owlen to p.Length
      invariant forall j :: 0 <= j < p.Length - owlen ==> p[j] == old(p[..])[j]
      invariant forall j :: p.Length - owlen <= j < k ==> p[j] == PAD
    {
      p[k] := PAD;
    }
  }

  method DeleteAt(p: array<byte>, i: nat)
    requires i <= p.Length && Fits(p[..][i..])
    modifies p
    ensures p[..][..i] == old(p[..])[..i] && p[..][i..] == Delete(old(p[..])[i..])
  {
    var owlen := p[i + 1] as int + 2;
    MoveDown(p, i, owlen);
    ghost var moved := p[..];
    PadEnd(p, owlen);
    Deleted(old(p[..]), moved, p[..], i, owlen);
  }

  lemma Deleted(before: seq<byte>, moved: seq<byte>, after: seq<byte>, i: nat, n: nat)
    requires |after| == |moved| == |before| && i <= |before| && Fits(before[i..]) && n == Size(before[i..])
    requires forall j :: 0 <= j < i ==> moved[j] == before[j]
    requires forall j :: i <= j < |before| - n ==> moved[j] == before[j + n]
    requires forall j :: 0 <= j < |before| - n ==> after[j] == moved[j]
    requires forall j :: |before| - n <= j < |before| ==> after[j] == PAD
    ensures after[..i] == before[..i] && after[i..] == Delete(before[i..])
  {
    var s, t := before[i..], after[i..];
    forall j | 0 <= j < |t|
      ensures t[j] == Delete(s)[j]
    {
      if j >= |s| - Size(s) { PadsAt(Size(s), j - (|s| - Size(s))); }
    }
  }

  /** The field and the address at the end of the scan from position `i`, which may lie past the end. */
  ghost function Remaining(p: seq<byte>, i: nat): seq<byte> {
    if i > |p| then p else p[..i] + Scan(p[i..])
  }

  ghost function RemainingFound(p: seq<byte>, i: nat, ret: nat): nat {
    if i > |p| then ret else Found(p[i..], ret)
  }

  /** From field `p` at `i` to field `q` at `j` the scan has the same end. */
  ghost predicate Continues(p: seq<byte>, i: nat, ret: nat, q: seq<byte>, j: nat, ret': nat) {
    Remaining(p, i) == Remaining(q, j) && RemainingFound(p, i, ret) == RemainingFound(q, j, ret')
  }

  /** The first part of the loop's measure. */
  ghost function RoutersLeft(p: seq<byte>, i: nat): nat {
    if i < |p| then RouterBytes(p[i..]) else 0
  }

  lemma PassPad(p: seq<byte>, i: nat, ret: nat)
    requires i < |p| && p[i] == PAD
    ensures Continues(p, i, ret, p, i + 1, ret)
    ensures RoutersLeft(p, i + 1) <= RoutersLeft(p, i)
  {
    DropShrinks(p[i..], 1);
    Split(p, i, 1);
    Associative(p[..i], [PAD], Scan(p[i + 1..]));
  }

  lemma PassOption(p: seq<byte>, i: nat, ret: nat, i': nat)
    requires i + 2 <= |p| && p[i] != END && p[i] != PAD && p[i] != ROUTER && i' == i + Size(p[i..])
    ensures Continues(p, i, ret, p, i', ret)
  {
    if i' <= |p| {
      Split(p, i, Size(p[i..]));
      PassInside(p, i, ret, p[i..]);
    } else {
      PassEnd(p, i, ret, i');
    }
  }

  lemma RoutersPast(p: seq<byte>, i: nat, n: nat)
    requires i <= |p|
    ensures RoutersLeft(p, i + n) <= RoutersLeft(p, i)
  {
    if i + n < |p| {
      DropShrinks(p[i..], n);
      assert p[i..][n..] == p[i + n..];
    }
  }

  lemma PassInside(p: seq<byte>, i: nat, ret: nat, s: seq<byte>)
    requires i <= |p| && s == p[i..] && Fits(s) && s[0] != END && s[0] != PAD && s[0] != ROUTER
    requires s[Size(s)..] == p[i + Size(s)..] && p[..i + Size(s)] == p[..i] + s[..Size(s)]
    ensures Continues(p, i, ret, p, i + Size(s), ret)
  {
    Associative(p[..i], s[..Size(s)], Scan(s[Size(s)..]));
  }

  lemma PassEnd(p: seq<byte>, i: nat, ret: nat, i': nat)
    requires i + 2 <= |p| < i' && p[i] != END && p[i] != PAD && !Fits(p[i..])
    ensures Continues(p, i, ret, p, i', ret)
  {
    assert p == p[..i] + p[i..];
  }

  lemma Split(p: seq<byte>, i: nat, n: nat)
    requires i + n <= |p|
    ensures p[i..][n..] == p[i + n..] && p[..i + n] == p[..i] + p[i..][..n]
    ensures n == 1 ==> p[i..][..n] == [p[i]]
  {}

  /** The loop breaks at `i`, or has run past the end. */
  ghost predicate Stops(p: seq<byte>, i: nat) {
    i >= |p| || p[i] == END || (p[i] != PAD && |p| - i < 2) || (p[i] == ROUTER && !Fits(p[i..]))
  }

  lemma Stop(p: seq<byte>, i: nat, ret: nat)
    requires Stops(p, i)
    ensures Remaining(p, i) == p && RemainingFound(p, i, ret) == ret
  {
    if i <= |p| {
      assert p == p[..i] + p[i..];
    }
  }

  /** The branch of the loop for a router option that lies inside the field. */
  method RemoveRouter(p: array<byte>, i: nat, ret0: nat) returns (ret: nat)
    requires i < p.Length && p[i] == ROUTER && Fits(p[..][i..])
    modifies p
    ensures Continues(old(p[..]), i, ret0, p[..], i, ret)
    ensures RoutersLeft(p[..], i) < old(RoutersLeft(p[..], i))
  {
    ret := ret0;
    ghost var s := p[..][i..];
    var len := p[i + 1] as int;
    assert p[i + 2..i + 2 + len] == s[2..Size(s)];
    if ret == 0 && len >= 4 && len % 4 == 0 {
      ret := Address(p[i + 2..i + 6]);
    }
    assert ret == Keep(ret0, s[2..Size(s)]);
    DeleteShrinks(s);
    DeleteAt(p, i);
  }

  /** One round of the loop; `stop` is its break. */
  method ExtractStep(p: array<byte>, i: nat, ret: nat) returns (i': nat, ret': nat, stop: bool)
    requires i < p.Length
    modifies p
    ensures Continues(old(p[..]), i, ret, p[..], i', ret')
    ensures if stop then Stops(p[..], i') else
              RoutersLeft(p[..], i') < old(RoutersLeft(p[..], i))
                || (RoutersLeft(p[..], i') == old(RoutersLeft(p[..], i)) && i' > i)
  {
    i', ret', stop := i, ret, true;
    var type_, room := p[i], p.Length - i;
    if type_ == END {
    } else if type_ == PAD {
      PassPad(p[..], i, ret);
      i', stop := i + 1, false;
    } else if type_ == ROUTER {
      if room >= 2 {
        var len := p[i + 1] as int;
        if len <= room - 2 {
          ret' := RemoveRouter(p, i, ret);
          stop := false;
        }
      }
    } else if room >= 2 {
      var len := p[i + 1] as int;
      PassOption(p[..], i, ret, i + (len + 2));
      RoutersPast(p[..], i, len + 2);
      i', stop := i + (len + 2), false;
    }
  }

  method Extract(p: array<byte>) returns (ret: nat)
    modifies p
    ensures p[..] == Scan(old(p[..])) && ret == Found(old(p[..]), 0)
  {
    ret := 0;
    var i: nat, stop := 0, false;
    assert p[..][0..] == p[..] && [] + Scan(p[..]) == Scan(p[..]);
    while i < p.Length && !stop
      invariant Remaining(p[..], i) == Scan(old(p[..])) && RemainingFound(p[..], i, ret) == Found(old(p[..]), 0)
      invariant stop ==> Stops(p[..], i)
      decreases !stop, RoutersLeft(p[..], i), p.Length - i
    {
      i, ret, stop := ExtractStep(p, i, ret);
    }
    Stop(p[..], i, ret);
  }

  /** dhcp_extract_router_msg, with the outcome of its checks on the packet headers: only acknowledgements
      and offers are changed, only acknowledgements give an address, and the type is the same afterwards,
      whatever the packet. */
  method ExtractRouterMsg(headersOk: bool, p: array<byte>) returns (ret: nat)
    modifies p
    ensures MessageType(p[..]) == old(MessageType(p[..]))
    ensures var t := old(MessageType(p[..]));
            && p[..] == (if headersOk && (t == DHCPACK || t == DHCPOFFER) then Scan(old(p[..])) else old(p[..]))
            && ret == if headersOk && t == DHCPACK then Found(old(p[..]), 0) else 0
  {
    ret := 0;
    if headersOk {
      var messageType := GetMessageType(p);
      if messageType == DHCPACK || messageType == DHCPOFFER {
        MessageTypeKept(p[..]);
        var addr := Extract(p);
        if messageType == DHCPACK {
          ret := addr;
        }
      }
    }
  }
}
