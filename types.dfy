/** Fixed-width integers and the small records shared by the load balancer:
    the connection key `ce`, the address record `struct host_meta` and the
    XDP verdict. */
module Types {

  datatype Option<+T> = None | Some(value: T)

  const U16_LIMIT: int := 0x1_0000
  const U32_LIMIT: int := 0x1_0000_0000
  const U64_LIMIT: int := 0x1_0000_0000_0000_0000

  type u8 = x: int | 0 <= x < 0x100
  type u16 = x: int | 0 <= x < 0x1_0000
  type u32 = x: int | 0 <= x < 0x1_0000_0000
  type u64 = x: int | 0 <= x < 0x1_0000_0000_0000_0000

  /** Truncation of an `int` to `__u16`, as in an assignment to a `__u16` variable. */
  function Wrap16(x: int): u16 { x % U16_LIMIT }

  /** Unsigned 32-bit wrap-around. */
  function Wrap32(x: int): u32 { x % U32_LIMIT }

  /** Unsigned 64-bit wrap-around, as in `total_bits += pkt_sz`. */
  function Wrap64(x: int): u64 { x % U64_LIMIT }

  /** Adding in two steps with a wrap in between wraps like adding once. */
  lemma Wrap64Add(a: int, b: int)
    ensures Wrap64(Wrap64(a) + b) == Wrap64(a + b)
  {
    var q, t := a / U64_LIMIT, (a + b) / U64_LIMIT;
    assert Wrap64(a) + b == (t - q) * U64_LIMIT + Wrap64(a + b);
    ModUnique(Wrap64(a) + b, t - q, U64_LIMIT, Wrap64(a + b));
  }

  /** Euclidean division is unique: a remainder in range is the remainder. */
  lemma ModUnique(x: int, k: int, m: int, s: int)
    requires m > 0 && 0 <= s < m && x == k * m + s
    ensures x / m == k && x % m == s
  {
    var d := x / m;
    assert (k - d) * m == x % m - s;
    if k > d {
      MulAtLeast(k - d, m);
    } else if k < d {
      MulAtLeast(d - k, m);
    }
  }

  lemma MulAtLeast(a: int, m: int)
    requires a >= 1 && m > 0
    ensures a * m >= m
  {
  }

  /** A positive modulus keeps the sign of the factor it multiplies. */
  lemma MulSign(a: int, m: int)
    requires m > 0
    ensures a >= 1 ==> a * m >= m
    ensures a <= 0 ==> a * m <= 0
  {
    if a >= 1 {
      MulAtLeast(a, m);
    }
  }

  /** `ce`: the client address and port that key the connection table. */
  datatype Key = Key(ip: u32, port: u16)

  /** `struct host_meta`: the address and port of a backend or of the VIP. */
  datatype HostMeta = HostMeta(ip: u32, port: u16)

  /** The three XDP actions the program returns. */
  datatype Verdict = Pass | Drop | Tx
}
