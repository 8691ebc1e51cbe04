/** The load balancer: the XDP program `xdp_lb`, run once per received
    frame, and the kprobe on `inet_release`, run when a socket is released.
    Both are specified by functions over a `State` value (the program's
    global counters and maps) and implemented by the `Balancer` class. */
module Slb {
  import opened Types
  import opened Packet
  import opened Fib
  import opened Strategy
  import ConnTable

  /** `cur_clear_mode`: `just_local` deletes the connection entry itself;
      any other value hands the key to the ring buffer `rb`. */
  datatype ClearMode = JustLocal | RingNotify

  const SOCK_STREAM: int := 1

  /** The load-time constants and the tables a loader fills before traffic:
      NUM_BACKENDS, cur_lb_alg, local_ip, cur_clear_mode, TCP_MAX_BITS,
      MAX_CONNTRACK (capacity of `back_map`), the number of records that fit
      in `rb`, `backends_map` (MAX_BACKEND slots) and slot 0 of `vip_map`.
      `vip` is `None` only for the NULL result the code checks for; an array
      map always has slot 0, zeroed until the loader fills it. */
  datatype Config = Config(
    numBackends: u32,
    alg: LbAlg,
    localIp: u32,
    clearMode: ClearMode,
    tcpMaxBits: nat,
    maxConntrack: nat,
    ringSlots: nat,
    backends: seq<HostMeta>,
    vip: Option<HostMeta>)

  /** What the program changes: `total_bits`, `local_bits`, the static
      `count` of `lb_rr`, the connection table `back_map` and the ring `rb`. */
  datatype State = State(totalBits: u64, localBits: u64, rrCount: u32, table: ConnTable.Table, ring: seq<Key>)

  /** The kernel maps stay within their capacities. */
  ghost predicate StateValid(cfg: Config, st: State)
  {
    cfg.maxConntrack > 0 && ConnTable.Valid(st.table, cfg.maxConntrack) && |st.ring| <= cfg.ringSlots
  }

  const Initial: State := State(0, 0, 0, ConnTable.Empty, [])

  /** The frame-only part of `xdp_lb`: either a verdict reached before any
      state is touched, or the client key of a packet for the VIP. */
  datatype Gate = Decided(verdict: Verdict) | Serve(key: Key)

  /** The checks of `xdp_lb` in the order it makes them: headers present,
      IPv4, TCP; addressed to this host; VIP configured; payload length
      within TCP_MAX_BITS; addressed to the VIP; to the VIP's port. */
  function Classify(cfg: Config, f: Frame): (g: Gate)
    ensures g.Serve? ==> IsIpv4Tcp(f) && cfg.vip.Some?
    ensures g.Decided? ==> g.verdict != Tx
    ensures g.Decided? && g.verdict == Drop ==> IsIpv4Tcp(f) && cfg.vip.Some?
  {
    match Parse(f)
    case None => Decided(Pass)
    case Some(h) =>
      if h.daddr == cfg.localIp then Decided(Pass)
      else if cfg.vip.None? then Decided(Pass)
      else if TcpLen(h) > cfg.tcpMaxBits then Decided(Drop)
      else if h.daddr != cfg.vip.value.ip then Decided(Drop)
      else if h.dest != cfg.vip.value.port then Decided(Drop)
      else Serve(Key(h.saddr, h.source))
  }

  /** The packet is a request for the VIP that the balancer serves. */
  predicate Served(cfg: Config, f: Frame)
  {
    Classify(cfg, f).Serve?
  }

  /** What the affinity step leaves behind: the backend (if any), the
      round-robin counter and the connection table. */
  datatype Resolution = Resolution(backend: Option<HostMeta>, rrCount: u32, table: ConnTable.Table)

  /** Connection affinity: look the client up in `back_map`; on a miss ask
      `get_backend` and, when it returns a backend, store it for the client.
      Only the counter of `lb_rr` and the table take part. */
  function Resolve(cfg: Config, count: u32, table: ConnTable.Table, key: Key, rand: u32): (r: Resolution)
    ensures r.backend.Some? ==> ConnTable.Lookup(r.table, key) == r.backend
  {
    match ConnTable.Lookup(table, key)
    case Some(b) => Resolution(Some(b), count, ConnTable.Touch(table, key))
    case None =>
      var (b, count') := Strategy.GetBackend(cfg.alg, cfg.backends, cfg.numBackends, key, count, rand);
      match b
      case None => Resolution(None, count', table)
      case Some(rs) => Resolution(b, count', ConnTable.Insert(table, key, rs, cfg.maxConntrack))
  }

  /** The verdict of one packet, the state after it and the frame as it
      leaves. */
  datatype Outcome = Outcome(verdict: Verdict, state: State, frame: Frame)

  /** `xdp_lb` on frame `f`, with `rand` the value `bpf_get_prandom_u32`
      would return and `route` the kernel's routing lookup. */
  function Xdp(cfg: Config, st: State, f: Frame, rand: u32, route: Route): (o: Outcome)
    ensures |o.frame| == |f| && o.state.ring == st.ring
  {
    match Classify(cfg, f)
    case Decided(v) => Outcome(v, st, f)
    case Serve(key) => ServeVip(cfg, st, f, key, rand, route)
  }

  /** The tail of `xdp_lb` for a packet to the VIP's address and port:
      count it, resolve its backend, then keep it local, forward it with
      `gen_mac`, or pass it when no backend was found. */
  function ServeVip(cfg: Config, st: State, f: Frame, key: Key, rand: u32, route: Route): (o: Outcome)
    requires |f| >= ETH_HLEN
    ensures |o.frame| == |f| && o.state.ring == st.ring
  {
    var r := Resolve(cfg, st.rrCount, st.table, key, rand);
    var st' := st.(totalBits := Wrap64(st.totalBits + |f|), rrCount := r.rrCount, table := r.table);
    match r.backend
    case None => Outcome(Pass, st', f)
    case Some(b) =>
      if b.ip == cfg.localIp then
        Outcome(Pass, st'.(localBits := Wrap64(st'.localBits + |f|)), f)
      else
        var fib := route(cfg.localIp, b.ip);
        var v := FibVerdict(fib.rc);
        Outcome(v, st', if v == Tx then RewriteMacs(f, fib.dmac, fib.smac) else f)
  }

  /** `fire_sock_release_event(ip, port)`: delete the key from `back_map`
      in `just_local` mode; otherwise append it to `rb`, or lose it when
      `rb` has no room left. */
  function FireSockRelease(cfg: Config, st: State, ip: u32, port: u16): (r: State)
    ensures r.totalBits == st.totalBits && r.localBits == st.localBits && r.rrCount == st.rrCount
  {
    var key := Key(ip, port);
    if cfg.clearMode == JustLocal then st.(table := ConnTable.Remove(st.table, key).0)
    else if |st.ring| < cfg.ringSlots then st.(ring := st.ring + [key])
    else st
  }

  /** The fields of the released socket the kprobe reads: `sk_type`, the
      peer `skc_daddr`/`skc_dport` and the own `inet_saddr`/`inet_sport`. */
  datatype Sock = Sock(sockType: int, daddr: u32, dport: u16, saddr: u32, sport: u16)

  /** The kprobe on `inet_release`: a stream socket whose peer is the VIP
      releases the key made of the socket's own address and port. */
  function InetRelease(cfg: Config, st: State, sock: Sock): (r: State)
    ensures r.totalBits == st.totalBits && r.localBits == st.localBits && r.rrCount == st.rrCount
  {
    if sock.sockType != SOCK_STREAM then st
    else if cfg.vip.None? then st
    else if sock.daddr == cfg.vip.value.ip && sock.dport == cfg.vip.value.port then
      FireSockRelease(cfg, st, sock.saddr, sock.sport)
    else st
  }

  /** The affinity step keeps `back_map` within MAX_CONNTRACK entries. */
  lemma ResolveKeepsValid(cfg: Config, count: u32, table: ConnTable.Table, key: Key, rand: u32)
    requires cfg.maxConntrack > 0 && ConnTable.Valid(table, cfg.maxConntrack)
    ensures ConnTable.Valid(Resolve(cfg, count, table, key, rand).table, cfg.maxConntrack)
  {
    if ConnTable.Lookup(table, key).Some? {
      assert |table.order| <= cfg.maxConntrack;
    }
  }

  /** The VIP path keeps both maps within their capacities. */
  lemma ServeVipKeepsValid(cfg: Config, st: State, f: Frame, key: Key, rand: u32, route: Route)
    requires StateValid(cfg, st) && |f| >= ETH_HLEN
    ensures StateValid(cfg, ServeVip(cfg, st, f, key, rand, route).state)
  {
    ResolveKeepsValid(cfg, st.rrCount, st.table, key, rand);
  }

  /** Every packet keeps both maps within their capacities. */
  lemma XdpKeepsValid(cfg: Config, st: State, f: Frame, rand: u32, route: Route)
    requires StateValid(cfg, st)
    ensures StateValid(cfg, Xdp(cfg, st, f, rand, route).state)
  {
    if Classify(cfg, f).Serve? {
      ServeVipKeepsValid(cfg, st, f, Classify(cfg, f).key, rand, route);
    }
  }

  /** A release event keeps both maps within their capacities: a delete
      only shrinks `back_map`, and a key is appended to `rb` only when it
      fits. */
  lemma FireSockReleaseKeepsValid(cfg: Config, st: State, ip: u32, port: u16)
    requires StateValid(cfg, st)
    ensures StateValid(cfg, FireSockRelease(cfg, st, ip, port))
  {
  }

  /** So does the kprobe, which at most fires one release event. */
  lemma InetReleaseKeepsValid(cfg: Config, st: State, sock: Sock)
    requires StateValid(cfg, st)
    ensures StateValid(cfg, InetRelease(cfg, st, sock))
  {
    FireSockReleaseKeepsValid(cfg, st, sock.saddr, sock.sport);
  }

  /** The program's global state, updated in place by the XDP program and
      the kprobe. */
  class Balancer {
    const cfg: Config
    var totalBits: u64
    var localBits: u64
    var rrCount: u32
    var table: ConnTable.Table
    var ring: seq<Key>

    function Snapshot(): State
      reads this
    {
      State(totalBits, localBits, rrCount, table, ring)
    }

    ghost predicate Valid()
      reads this
    {
      StateValid(cfg, Snapshot())
    }

    /** The program as loaded: counters at zero, both maps empty. */
    constructor (cfg: Config)
      requires cfg.maxConntrack > 0
      ensures this.cfg == cfg && Valid() && Snapshot() == Initial
    {
      this.cfg := cfg;
      totalBits, localBits, rrCount := 0, 0, 0;
      table := ConnTable.Empty;
      ring := [];
    }

    /** `lb_rr`: take the slot the counter points at, then advance it. */
    method LbRr() returns (rs: Option<HostMeta>)
      modifies this`rrCount
      ensures rs == PoolLookup(cfg.backends, BpfMod(old(rrCount), cfg.numBackends))
      ensures rrCount == Wrap32(old(rrCount) + 1)
    {
      var idx := BpfMod(rrCount, cfg.numBackends);
      rrCount := Wrap32(rrCount + 1);
      rs := PoolLookup(cfg.backends, idx);
    }

    /** `get_backend(cur_lb_alg, key)`, with `lb_hash` and `lb_rand` inline. */
    method GetBackend(key: Key, rand: u32) returns (rs: Option<HostMeta>)
      modifies this`rrCount
      ensures (rs, rrCount) == Strategy.GetBackend(cfg.alg, cfg.backends, cfg.numBackends, key, old(rrCount), rand)
    {
      match cfg.alg
      case LbNHash =>
        rs := PoolLookup(cfg.backends, BpfMod(HashOf(key), cfg.numBackends));
      case LbRoundRobin =>
        rs := LbRr();
      case _ =>
        rs := PoolLookup(cfg.backends, BpfMod(rand, cfg.numBackends));
    }

    /** `xdp_lb(ctx)`: the frame is the packet buffer, rewritten in place
      when the packet is transmitted. */
    method XdpLb(frame: array<u8>, rand: u32, route: Route) returns (v: Verdict)
      requires Valid()
      modifies this, frame
      ensures Valid()
      ensures var o := Xdp(cfg, old(Snapshot()), old(frame[..]), rand, route);
              v == o.verdict && Snapshot() == o.state && frame[..] == o.frame
    {
      var data := frame[..];
      var pktSz := frame.Length;
      if pktSz < ETH_HLEN {
        return Pass;
      }
      if Be16(data, ETH_PROTO_OFF) != ETH_P_IP {
        return Pass;
      }
      if pktSz < ETH_HLEN + IP_HLEN {
        return Pass;
      }
      if data[IP_PROTO_OFF] != IPPROTO_TCP {
        return Pass;
      }
      if pktSz < ETH_HLEN + IP_HLEN + TCP_HLEN {
        return Pass;
      }
      var h := ReadHeaders(data);
      if h.daddr == cfg.localIp {
        return Pass;
      }
      var tcpLen := TcpLen(h);
      if cfg.vip.None? {
        return Pass;
      }
      var vip := cfg.vip.value;
      if tcpLen > cfg.tcpMaxBits {
        return Drop;
      }
      if h.daddr != vip.ip {
        return Drop;
      }
      if h.dest != vip.port {
        return Drop;
      }
      v := ServeVipPacket(frame, Key(h.saddr, h.source), rand, route);
    }

    /** The part of `xdp_lb` after the packet matched the VIP's address and
        port: it updates the counters and `back_map` and may rewrite the frame. */
    method ServeVipPacket(frame: array<u8>, key: Key, rand: u32, route: Route) returns (v: Verdict)
      requires Valid() && frame.Length >= ETH_HLEN
      modifies this, frame
      ensures Valid()
      ensures var o := ServeVip(cfg, old(Snapshot()), old(frame[..]), key, rand, route);
              v == o.verdict && Snapshot() == o.state && frame[..] == o.frame
    {
      ServeVipKeepsValid(cfg, Snapshot(), frame[..], key, rand, route);
      var pktSz := frame.Length;
      totalBits := Wrap64(totalBits + pktSz);
      var rs := ConnTable.Lookup(table, key);
      if rs.None? {
        rs := GetBackend(key, rand);
        if rs.None? {
          return Pass;
        }
        table := ConnTable.Insert(table, key, rs.value, cfg.maxConntrack);
      } else {
        table := ConnTable.Touch(table, key);
      }
      if rs.value.ip == cfg.localIp {
        localBits := Wrap64(localBits + pktSz);
        return Pass;
      }
      v := GenMac(frame, route, cfg.localIp, rs.value.ip);
    }

    /** `fire_sock_release_event(ip, port)`; the result of the delete is
        only traced, so it is dropped here too. */
    method FireSockReleaseEvent(ip: u32, port: u16)
      requires Valid()
      modifies this
      ensures Valid()
      ensures Snapshot() == FireSockRelease(cfg, old(Snapshot()), ip, port)
    {
      FireSockReleaseKeepsValid(cfg, Snapshot(), ip, port);
      var key := Key(ip, port);
      if cfg.clearMode == JustLocal {
        var (rest, _) := ConnTable.Remove(table, key);
        table := rest;
      } else if |ring| < cfg.ringSlots {
        ring := ring + [key];
      }
    }

    /** `kprobe_inet_release(sock)`; the probe always returns 0. */
    method KprobeInetRelease(sock: Sock) returns (r: int)
      requires Valid()
      modifies this
      ensures Valid() && r == 0
      ensures Snapshot() == InetRelease(cfg, old(Snapshot()), sock)
    {
      r := 0;
      if sock.sockType != SOCK_STREAM {
        return;
      }
      if cfg.vip.None? {
        return;
      }
      var vip := cfg.vip.value;
      if sock.daddr == vip.ip && sock.dport == vip.port {
        FireSockReleaseEvent(sock.saddr, sock.sport);
      }
    }
  }
}
