/** Bytes, optional values and numbers in network byte order. */
module Basics {

  type byte = x: int | 0 <= x < 256

  datatype Option<T> = None | Some(value: T)

  /** The last `n` bytes of `x`, the most significant first. */
  function ToNetwork(x: nat, n: nat): (b: seq<byte>)
    ensures |b| == n
  {
    if n == 0 then [] else ToNetwork(x / 256, n - 1) + [x % 256]
  }

  function FromNetwork(b: seq<byte>): nat {
    if b == [] then 0 else FromNetwork(b[..|b| - 1]) * 256 + b[|b| - 1] as int
  }

  function Power256(n: nat): nat {
    if n == 0 then 1 else 256 * Power256(n - 1)
  }

  lemma {:induction false} NetworkRoundTrip(x: nat, n: nat)
    requires x < Power256(n)
    ensures FromNetwork(ToNetwork(x, n)) == x
  {
    if n > 0 {
      NetworkRoundTrip(x / 256, n - 1);
      assert ToNetwork(x, n)[..n - 1] == ToNetwork(x / 256, n - 1);
    }
  }

  lemma Powers()
    ensures Power256(4) == 0x1_0000_0000 && Power256(8) == 0x1_0000_0000_0000_0000
  {
    assert Power256(4) == 0x1_0000_0000;
    assert Power256(8) == 256 * (256 * (256 * (256 * Power256(4))));
  }
}
