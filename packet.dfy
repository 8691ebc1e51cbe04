/** The frame as the XDP program sees it: an Ethernet header, an IPv4 header
    taken at its fixed 20-byte size (IP options are not skipped) and a TCP
    header, each read only after checking that it lies inside the frame. */
module Packet {
  import opened Types

  const ETH_ALEN: nat := 6
  const ETH_HLEN: nat := 14       // sizeof(struct ethhdr)
  const IP_HLEN: nat := 20        // sizeof(struct iphdr)
  const TCP_HLEN: nat := 20       // sizeof(struct tcphdr)
  const ETH_P_IP: int := 0x0800
  const IPPROTO_TCP: int := 6

  // Byte offsets of the fields the program reads.
  const ETH_PROTO_OFF: nat := 12
  const IP_OFF: nat := ETH_HLEN
  const IP_TOT_LEN_OFF: nat := IP_OFF + 2
  const IP_PROTO_OFF: nat := IP_OFF + 9
  const IP_SADDR_OFF: nat := IP_OFF + 12
  const IP_DADDR_OFF: nat := IP_OFF + 16
  const TCP_OFF: nat := ETH_HLEN + IP_HLEN
  const TCP_SOURCE_OFF: nat := TCP_OFF
  const TCP_DEST_OFF: nat := TCP_OFF + 2

  /** All three headers, at the fixed offsets the program uses. */
  const HEADERS_LEN: nat := ETH_HLEN + IP_HLEN + TCP_HLEN

  type Frame = seq<u8>
  /** The 4-bit header-length field of the IPv4 header, in 32-bit words. */
  type u4 = x: int | 0 <= x < 16
  type Mac = s: seq<u8> | |s| == 6 witness [0, 0, 0, 0, 0, 0]

  /** A 16-bit field converted from network byte order (`bpf_ntohs`). */
  function Be16(f: Frame, off: nat): u16
    requires off + 2 <= |f|
  {
    (f[off] as int) * 0x100 + f[off + 1]
  }

  /** A 16-bit field used as loaded, without byte-order conversion
      (a little-endian host, as the program compares and hashes raw fields). */
  function Load16(f: Frame, off: nat): u16
    requires off + 2 <= |f|
  {
    f[off] + (f[off + 1] as int) * 0x100
  }

  /** A 32-bit field used as loaded, without byte-order conversion. */
  function Load32(f: Frame, off: nat): u32
    requires off + 4 <= |f|
  {
    Load16(f, off) + Load16(f, off + 2) * U16_LIMIT
  }

  /** The header fields the pipeline uses; addresses and ports are raw loads. */
  datatype Headers = Headers(ihl: u4, totLen: u16, saddr: u32, daddr: u32, source: u16, dest: u16)

  /** An Ethernet frame carrying IPv4 and TCP, long enough for the three
      fixed-size headers. */
  predicate IsIpv4Tcp(f: Frame)
  {
    |f| >= HEADERS_LEN && Be16(f, ETH_PROTO_OFF) == ETH_P_IP && f[IP_PROTO_OFF] == IPPROTO_TCP
  }

  /** The bounds-checked parse at the top of `xdp_lb`: each header is read
      only after its end is checked against the frame length, and a frame
      that is too short, not IPv4 or not TCP yields nothing. */
  function Parse(f: Frame): (r: Option<Headers>)
    ensures r.Some? <==> IsIpv4Tcp(f)
  {
    if |f| < ETH_HLEN then None
    else if Be16(f, ETH_PROTO_OFF) != ETH_P_IP then None
    else if |f| < ETH_HLEN + IP_HLEN then None
    else if f[IP_PROTO_OFF] != IPPROTO_TCP then None
    else if |f| < HEADERS_LEN then None
    else Some(ReadHeaders(f))
  }

  /** The bytes of a 16-bit value in network order, most significant first. */
  function BeBytes16(x: u16): seq<u8>
  {
    [x / 0x100, x % 0x100]
  }

  /** The bytes of a 16-bit value as a little-endian host stores it. */
  function LeBytes16(x: u16): seq<u8>
  {
    [x % 0x100, x / 0x100]
  }

  /** The bytes of a 32-bit value as a little-endian host stores it. */
  function LeBytes32(x: u32): seq<u8>
  {
    [x % 0x100, x / 0x100 % 0x100, x / 0x1_0000 % 0x100, x / 0x100_0000]
  }

  /** `bpf_ntohs` reads the field's two bytes back in network order. */
  lemma Be16Bytes(f: Frame, off: nat)
    requires off + 2 <= |f|
    ensures BeBytes16(Be16(f, off)) == f[off..off + 2]
  {
    ModUnique(Be16(f, off), f[off], 0x100, f[off + 1]);
  }

  /** A raw 16-bit load stores back to the same two bytes. */
  lemma Load16Bytes(f: Frame, off: nat)
    requires off + 2 <= |f|
    ensures LeBytes16(Load16(f, off)) == f[off..off + 2]
  {
    ModUnique(Load16(f, off), f[off + 1], 0x100, f[off]);
  }

  /** A raw 32-bit load stores back to the same four bytes. */
  lemma Load32Bytes(f: Frame, off: nat)
    requires off + 4 <= |f|
    ensures LeBytes32(Load32(f, off)) == f[off..off + 4]
  {
    var x := Load32(f, off);
    var a: int, b: int, c: int, d: int := f[off], f[off + 1], f[off + 2], f[off + 3];
    assert x == a + b * 0x100 + c * 0x1_0000 + d * 0x100_0000;
    ModUnique(x, b + c * 0x100 + d * 0x1_0000, 0x100, a);
    ModUnique(b + c * 0x100 + d * 0x1_0000, c + d * 0x100, 0x100, b);
    ModUnique(x, c + d * 0x100, 0x1_0000, a + b * 0x100);
    ModUnique(c + d * 0x100, d, 0x100, c);
    ModUnique(x, d, 0x100_0000, a + b * 0x100 + c * 0x1_0000);
  }

  /** The field reads through `iph` and `tcph`, once the frame is known to
      hold all three headers; `ihl` is the low nibble of the first IPv4 byte. */
  function ReadHeaders(f: Frame): Headers
    requires |f| >= HEADERS_LEN
  {
    Headers(
      ihl := f[IP_OFF] % 16,
      totLen := Be16(f, IP_TOT_LEN_OFF),
      saddr := Load32(f, IP_SADDR_OFF),
      daddr := Load32(f, IP_DADDR_OFF),
      source := Load16(f, TCP_SOURCE_OFF),
      dest := Load16(f, TCP_DEST_OFF))
  }

  /** Where each header field comes from: `ihl` is the low nibble of the
      first IPv4 byte, `tot_len` goes through `bpf_ntohs`, and the addresses
      and ports are raw little-endian loads whose stored bytes are the bytes
      on the wire. */
  lemma HeaderLayout(f: Frame)
    requires |f| >= HEADERS_LEN
    ensures var h := ReadHeaders(f);
      && f[IP_OFF] == f[IP_OFF] / 16 * 16 + h.ihl
      && BeBytes16(h.totLen) == f[IP_TOT_LEN_OFF..IP_TOT_LEN_OFF + 2]
      && LeBytes32(h.saddr) == f[IP_SADDR_OFF..IP_SADDR_OFF + 4]
      && LeBytes32(h.daddr) == f[IP_DADDR_OFF..IP_DADDR_OFF + 4]
      && LeBytes16(h.source) == f[TCP_SOURCE_OFF..TCP_SOURCE_OFF + 2]
      && LeBytes16(h.dest) == f[TCP_DEST_OFF..TCP_DEST_OFF + 2]
  {
    Be16Bytes(f, IP_TOT_LEN_OFF);
    Load32Bytes(f, IP_SADDR_OFF);
    Load32Bytes(f, IP_DADDR_OFF);
    Load16Bytes(f, TCP_SOURCE_OFF);
    Load16Bytes(f, TCP_DEST_OFF);
  }

  /** `bpf_ntohs(iph->tot_len) - (iph->ihl << 2)` stored in a `__u16`:
      a total length shorter than the header wraps to a large value. */
  function TcpLen(h: Headers): (r: u16)
    ensures h.ihl * 4 <= h.totLen ==> r == h.totLen - h.ihl * 4
    ensures h.ihl * 4 > h.totLen ==> r == U16_LIMIT + h.totLen - h.ihl * 4
  {
    Wrap16(h.totLen - h.ihl * 4)
  }

  /** The two `memcpy` calls of `gen_mac`: destination MAC into bytes 0-5,
      source MAC into bytes 6-11; no other byte changes. */
  function RewriteMacs(f: Frame, dmac: Mac, smac: Mac): (r: Frame)
    requires |f| >= ETH_HLEN
    ensures |r| == |f|
    ensures forall i :: 0 <= i < ETH_ALEN ==> r[i] == dmac[i] && r[ETH_ALEN + i] == smac[i]
    ensures forall i :: 2 * ETH_ALEN <= i < |f| ==> r[i] == f[i]
  {
    dmac + smac + f[2 * ETH_ALEN..]
  }

  /** Rewriting the link-layer addresses leaves every IPv4 and TCP field,
      and the ethertype, as they were: forwarding changes no L3/L4 header. */
  lemma ParseIgnoresMacs(f: Frame, dmac: Mac, smac: Mac)
    requires |f| >= ETH_HLEN
    ensures Parse(RewriteMacs(f, dmac, smac)) == Parse(f)
  {
    var r := RewriteMacs(f, dmac, smac);
    assert r[2 * ETH_ALEN..] == f[2 * ETH_ALEN..];
    assert Be16(r, ETH_PROTO_OFF) == Be16(f, ETH_PROTO_OFF);
    if |f| >= HEADERS_LEN {
      assert r[IP_OFF..HEADERS_LEN] == f[IP_OFF..HEADERS_LEN];
    }
  }
}
