/** What the load balancer guarantees, stated over the specification
    functions of `Slb` that the `Balancer` methods are proved to follow. */
module SlbProperties {
  import opened Types
  import opened Packet
  import opened Fib
  import opened Strategy
  import ConnTable
  import opened Slb

  // ---------------------------------------------------------------------
  // Checks that end the packet before any state is touched
  // ---------------------------------------------------------------------

  /** Fail-closed parsing: a frame too short for the three headers, not
      IPv4 or not TCP passes, with no counter, table or frame change. */
  lemma MalformedFramePasses(cfg: Config, st: State, f: Frame, rand: u32, route: Route)
    requires !IsIpv4Tcp(f)
    ensures Xdp(cfg, st, f, rand, route) == Outcome(Pass, st, f)
  {
  }

  /** A packet addressed to this host passes untouched and uncounted, even
      when there is no VIP or its length is over the limit. */
  lemma LocalDestinationPasses(cfg: Config, st: State, f: Frame, rand: u32, route: Route)
    requires IsIpv4Tcp(f)
    requires ReadHeaders(f).daddr == cfg.localIp
    ensures Xdp(cfg, st, f, rand, route) == Outcome(Pass, st, f)
  {
  }

  /** The `!vip` branch: every other TCP packet passes untouched. `vip_map`
      is an array map, so its lookup at index 0 never fails and a loaded
      program never takes this branch; it is kept because the code has it. */
  lemma NoVipPasses(cfg: Config, st: State, f: Frame, rand: u32, route: Route)
    requires IsIpv4Tcp(f) && cfg.vip.None?
    ensures Xdp(cfg, st, f, rand, route) == Outcome(Pass, st, f)
  {
  }

  /** An over-long payload (after the `__u16` wrap) is dropped before the
      destination is compared with the VIP. */
  lemma OversizedPayloadDrops(cfg: Config, st: State, f: Frame, rand: u32, route: Route)
    requires IsIpv4Tcp(f) && cfg.vip.Some?
    requires ReadHeaders(f).daddr != cfg.localIp && TcpLen(ReadHeaders(f)) > cfg.tcpMaxBits
    ensures Xdp(cfg, st, f, rand, route) == Outcome(Drop, st, f)
  {
  }

  /** The VIP's address on another port is dropped, with nothing changed. */
  lemma PortMismatchDrops(cfg: Config, st: State, f: Frame, rand: u32, route: Route)
    requires IsIpv4Tcp(f) && cfg.vip.Some?
    requires ReadHeaders(f).daddr != cfg.localIp
    requires ReadHeaders(f).daddr == cfg.vip.value.ip && ReadHeaders(f).dest != cfg.vip.value.port
    ensures Xdp(cfg, st, f, rand, route) == Outcome(Drop, st, f)
  {
  }

  /** A destination that is neither this host nor the VIP is dropped, with
      nothing changed. */
  lemma ForeignDestinationDrops(cfg: Config, st: State, f: Frame, rand: u32, route: Route)
    requires IsIpv4Tcp(f) && cfg.vip.Some?
    requires ReadHeaders(f).daddr != cfg.localIp && ReadHeaders(f).daddr != cfg.vip.value.ip
    ensures Xdp(cfg, st, f, rand, route) == Outcome(Drop, st, f)
  {
  }

  /** An unfilled `vip_map` reads as the zeroed `host_meta`, not as a
      missing VIP: every TCP packet not addressed to this host or to 0.0.0.0
      is dropped, with nothing changed. */
  lemma UnfilledVipDrops(cfg: Config, st: State, f: Frame, rand: u32, route: Route)
    requires cfg.vip == Some(HostMeta(0, 0))
    requires IsIpv4Tcp(f) && ReadHeaders(f).daddr != cfg.localIp && ReadHeaders(f).daddr != 0
    ensures Xdp(cfg, st, f, rand, route) == Outcome(Drop, st, f)
  {
  }

  /** Exactly the packets that pass every check reach the VIP path, and
      they are keyed by their source address and port. */
  lemma ServedExactly(cfg: Config, f: Frame)
    ensures Served(cfg, f) <==>
      && IsIpv4Tcp(f) && cfg.vip.Some?
      && ReadHeaders(f).daddr != cfg.localIp
      && TcpLen(ReadHeaders(f)) <= cfg.tcpMaxBits
      && ReadHeaders(f).daddr == cfg.vip.value.ip
      && ReadHeaders(f).dest == cfg.vip.value.port
    ensures Served(cfg, f) ==> Classify(cfg, f).key == Key(ReadHeaders(f).saddr, ReadHeaders(f).source)
  {
  }

  /** A packet off the VIP path changes nothing and is never transmitted. */
  lemma UnservedChangesNothing(cfg: Config, st: State, f: Frame, rand: u32, route: Route)
    requires !Served(cfg, f)
    ensures var o := Xdp(cfg, st, f, rand, route);
      o.state == st && o.frame == f && o.verdict != Tx
  {
  }

  // ---------------------------------------------------------------------
  // Backend choice and connection affinity
  // ---------------------------------------------------------------------

  /** The backend the VIP path settles on for a served packet, if any. */
  function Chosen(cfg: Config, st: State, f: Frame, rand: u32): Option<HostMeta>
  {
    match Classify(cfg, f)
    case Serve(key) => Resolve(cfg, st.rrCount, st.table, key, rand).backend
    case Decided(_) => None
  }

  /** A table hit uses the stored backend: the strategy is not consulted,
      so the round-robin counter and the table's entries stay as they are,
      and the key becomes the most recently used one. */
  lemma HitUsesStoredBackend(cfg: Config, st: State, key: Key, rand: u32)
    requires ConnTable.Lookup(st.table, key).Some?
    ensures var r := Resolve(cfg, st.rrCount, st.table, key, rand);
      && r.backend == ConnTable.Lookup(st.table, key) && r.rrCount == st.rrCount
      && r.table.entries == st.table.entries && r.table == ConnTable.Touch(st.table, key)
  {
  }

  /** On a miss the strategy's choice is stored under the client's key and
      is what a later lookup returns; when the strategy finds nothing the
      table is left as it was. */
  lemma MissStoresSelection(cfg: Config, st: State, key: Key, rand: u32)
    requires ConnTable.Lookup(st.table, key).None?
    ensures var (b, count) := Strategy.GetBackend(cfg.alg, cfg.backends, cfg.numBackends, key, st.rrCount, rand);
      var r := Resolve(cfg, st.rrCount, st.table, key, rand);
      && r.backend == b && r.rrCount == count
      && (b.Some? ==> ConnTable.Lookup(r.table, key) == b)
      && (b.Some? ==> r.table == ConnTable.Insert(st.table, key, b.value, cfg.maxConntrack))
      && (b.None? ==> r.table == st.table)
  {
  }

  /** For a served packet, the round-robin counter and the table the next
      packet finds are those the affinity step leaves behind. */
  lemma ServedStepResolves(cfg: Config, st: State, f: Frame, rand: u32, route: Route)
    requires Served(cfg, f)
    ensures var r := Resolve(cfg, st.rrCount, st.table, Classify(cfg, f).key, rand);
      var s := Xdp(cfg, st, f, rand, route).state;
      s.rrCount == r.rrCount && s.table == r.table
  {
  }

  /** A packet of another client leaves the entry of key `k` alone, unless
      storing that client's choice evicts `k` as the least recently used
      entry of a full table. */
  lemma OtherConnectionKeepsBackend(cfg: Config, st: State, f: Frame, rand: u32, route: Route, k: Key)
    requires Served(cfg, f) ==>
      Classify(cfg, f).key != k && ConnTable.Victim(st.table, Classify(cfg, f).key, cfg.maxConntrack) != Some(k)
    ensures ConnTable.Lookup(Xdp(cfg, st, f, rand, route).state.table, k) == ConnTable.Lookup(st.table, k)
  {
    if Served(cfg, f) {
      ServedStepResolves(cfg, st, f, rand, route);
    }
  }

  /** Affinity: once a backend is chosen for a key, the next resolution of
      that key returns it again, whatever the random input. */
  lemma Affinity(cfg: Config, st: State, key: Key, rand1: u32, rand2: u32)
    ensures var r := Resolve(cfg, st.rrCount, st.table, key, rand1);
      r.backend.Some? ==> Resolve(cfg, r.rrCount, r.table, key, rand2).backend == r.backend
  {
    var r := Resolve(cfg, st.rrCount, st.table, key, rand1);
    if r.backend.Some? {
      assert ConnTable.Lookup(r.table, key) == r.backend;
    }
  }

  /** Affinity over packets: two packets of the same client connection to
      the VIP, one after the other, go to the same backend. */
  lemma ConnectionAffinity(cfg: Config, st: State, f1: Frame, f2: Frame, rand1: u32, rand2: u32, route: Route)
    requires Served(cfg, f1) && Served(cfg, f2)
    requires Classify(cfg, f1).key == Classify(cfg, f2).key
    requires Chosen(cfg, st, f1, rand1).Some?
    ensures Chosen(cfg, Xdp(cfg, st, f1, rand1, route).state, f2, rand2) == Chosen(cfg, st, f1, rand1)
  {
    var key := Classify(cfg, f1).key;
    var r := Resolve(cfg, st.rrCount, st.table, key, rand1);
    var o := Xdp(cfg, st, f1, rand1, route);
    assert o.state.table == r.table;
    assert ConnTable.Lookup(o.state.table, key) == r.backend;
  }

  /** Packet `a` does not evict the entry of key `k`: it is not served, or
      it is `k`'s own packet, or storing its client's choice does not push
      `k` out as the least recently used entry. */
  ghost predicate Spares(cfg: Config, st: State, a: Arrival, k: Key)
  {
    Served(cfg, a.frame) && Classify(cfg, a.frame).key != k ==>
      ConnTable.Victim(st.table, Classify(cfg, a.frame).key, cfg.maxConntrack) != Some(k)
  }

  /** No packet of `ps` evicts `k`, each judged in the state it finds. */
  ghost predicate NeverEvicted(cfg: Config, st: State, ps: seq<Arrival>, k: Key)
    decreases |ps|
  {
    ps == [] || (Spares(cfg, st, ps[0], k) && NeverEvicted(cfg, Next(cfg)(st, ps[0]), ps[1..], k))
  }

  /** One packet keeps the backend stored for `k` when it spares `k`:
      `k`'s own packets are hits, the others insert elsewhere. */
  lemma EntryKeptByPacket(cfg: Config, st: State, a: Arrival, k: Key)
    requires ConnTable.Lookup(st.table, k).Some? && Spares(cfg, st, a, k)
    ensures ConnTable.Lookup(Next(cfg)(st, a).table, k) == ConnTable.Lookup(st.table, k)
  {
    var f := a.frame;
    if Served(cfg, f) && Classify(cfg, f).key == k {
      ServedStepResolves(cfg, st, f, a.rand, a.route);
      HitUsesStoredBackend(cfg, st, k, a.rand);
    } else {
      OtherConnectionKeepsBackend(cfg, st, f, a.rand, a.route, k);
    }
  }

  /** Connection affinity over a whole run: unless a packet evicts its
      entry, a connection's stored backend stays through any sequence of
      packets, and its next packet goes to that backend. */
  lemma {:induction false} AffinityAlongRun(cfg: Config, st: State, ps: seq<Arrival>, k: Key,
                                            f: Frame, rand: u32)
    requires ConnTable.Lookup(st.table, k).Some? && NeverEvicted(cfg, st, ps, k)
    requires Served(cfg, f) && Classify(cfg, f).key == k
    ensures ConnTable.Lookup(Run(cfg, st, ps).table, k) == ConnTable.Lookup(st.table, k)
    ensures Chosen(cfg, Run(cfg, st, ps), f, rand) == ConnTable.Lookup(st.table, k)
    decreases |ps|
  {
    if ps != [] {
      EntryKeptByPacket(cfg, st, ps[0], k);
      AffinityAlongRun(cfg, Next(cfg)(st, ps[0]), ps[1..], k, f, rand);
    }
    HitUsesStoredBackend(cfg, Run(cfg, st, ps), k, rand);
  }

  /** When the strategy finds no backend the packet passes: it is counted
      in `total_bits`, but the table and the frame do not change. */
  lemma NoBackendPasses(cfg: Config, st: State, f: Frame, rand: u32, route: Route)
    requires Served(cfg, f)
    requires ConnTable.Lookup(st.table, Classify(cfg, f).key).None?
    requires Strategy.GetBackend(cfg.alg, cfg.backends, cfg.numBackends, Classify(cfg, f).key, st.rrCount, rand).0.None?
    ensures var o := Xdp(cfg, st, f, rand, route);
      o.verdict == Pass && o.state.table == st.table && o.frame == f
      && o.state.totalBits == Wrap64(st.totalBits + |f|) && o.state.localBits == st.localBits
  {
  }

  /** With a pool of NUM_BACKENDS slots, a packet for the VIP always finds
      a backend. */
  lemma ServedPacketFindsBackend(cfg: Config, st: State, f: Frame, rand: u32)
    requires Served(cfg, f) && 0 < cfg.numBackends <= |cfg.backends|
    ensures Chosen(cfg, st, f, rand).Some?
    ensures Chosen(cfg, st, f, rand).value in cfg.backends || ConnTable.Lookup(st.table, Classify(cfg, f).key).Some?
  {
  }

  /** `back_map` never holds more than MAX_CONNTRACK connections. */
  lemma TableStaysBounded(cfg: Config, st: State, f: Frame, rand: u32, route: Route)
    requires StateValid(cfg, st)
    ensures |Xdp(cfg, st, f, rand, route).state.table.entries| <= cfg.maxConntrack
  {
    XdpKeepsValid(cfg, st, f, rand, route);
    ConnTable.SizeBound(Xdp(cfg, st, f, rand, route).state.table, cfg.maxConntrack);
  }

  // ---------------------------------------------------------------------
  // Forwarding
  // ---------------------------------------------------------------------

  /** A served packet whose backend is another host gets the routing
      lookup's verdict; it is dropped only when that host is unroutable,
      and transmitted only with its MACs rewritten from the lookup. */
  lemma ForwardedVerdict(cfg: Config, st: State, f: Frame, rand: u32, route: Route)
    requires Served(cfg, f)
    requires Chosen(cfg, st, f, rand).Some? && Chosen(cfg, st, f, rand).value.ip != cfg.localIp
    ensures var fib := route(cfg.localIp, Chosen(cfg, st, f, rand).value.ip);
      var o := Xdp(cfg, st, f, rand, route);
      && o.verdict == FibVerdict(fib.rc)
      && (o.verdict == Drop <==> IsUnroutable(fib.rc))
      && o.frame == if fib.rc == BPF_FIB_LKUP_RET_SUCCESS then RewriteMacs(f, fib.dmac, fib.smac) else f
  {
  }

  /** A packet for the VIP is dropped only when the routing lookup says its
      backend is unreachable; a local backend or none means PASS. */
  lemma ServedDropOnlyWhenUnroutable(cfg: Config, st: State, f: Frame, rand: u32, route: Route)
    requires Served(cfg, f)
    ensures var o := Xdp(cfg, st, f, rand, route);
      o.verdict == Drop ==>
        Chosen(cfg, st, f, rand).Some? && IsUnroutable(route(cfg.localIp, Chosen(cfg, st, f, rand).value.ip).rc)
  {
  }

  /** Forwarding rewrites link-layer addresses only: every packet leaves
      with the IPv4 and TCP headers it came with, and unchanged unless
      transmitted. */
  lemma ForwardingKeepsHeaders(cfg: Config, st: State, f: Frame, rand: u32, route: Route)
    ensures var o := Xdp(cfg, st, f, rand, route);
      Parse(o.frame) == Parse(f) && (o.verdict != Tx ==> o.frame == f)
  {
    var o := Xdp(cfg, st, f, rand, route);
    if o.frame != f {
      var b := Chosen(cfg, st, f, rand).value;
      var fib := route(cfg.localIp, b.ip);
      ParseIgnoresMacs(f, fib.dmac, fib.smac);
    }
  }

  // ---------------------------------------------------------------------
  // Statistics
  // ---------------------------------------------------------------------

  /** Bytes a packet adds to `total_bits`. */
  function ServedBytes(cfg: Config, f: Frame): nat
  {
    if Served(cfg, f) then |f| else 0
  }

  /** Bytes a packet adds to `local_bits`: those of a served packet whose
      backend is this host. */
  function LocalBytes(cfg: Config, st: State, f: Frame, rand: u32): nat
  {
    match Chosen(cfg, st, f, rand)
    case Some(b) => if b.ip == cfg.localIp then |f| else 0
    case None => 0
  }

  /** One packet: `total_bits` grows (mod 2^64) by the frame size exactly
      when the packet is for the VIP's address and port. */
  lemma TotalBitsStep(cfg: Config, st: State, f: Frame, rand: u32, route: Route)
    ensures Xdp(cfg, st, f, rand, route).state.totalBits == Wrap64(st.totalBits + ServedBytes(cfg, f))
  {
    match Classify(cfg, f)
    case Decided(_) =>
      ModUnique(st.totalBits, 0, U64_LIMIT, st.totalBits);
    case Serve(key) =>
      var r := Resolve(cfg, st.rrCount, st.table, key, rand);
      assert Xdp(cfg, st, f, rand, route).state.totalBits == Wrap64(st.totalBits + |f|);
  }

  /** One packet: `local_bits` grows (mod 2^64) by the frame size only when
      the packet is for the VIP and its backend is this host; such a packet
      passes. */
  lemma LocalBitsStep(cfg: Config, st: State, f: Frame, rand: u32, route: Route)
    ensures Xdp(cfg, st, f, rand, route).state.localBits == Wrap64(st.localBits + LocalBytes(cfg, st, f, rand))
    ensures LocalBytes(cfg, st, f, rand) <= ServedBytes(cfg, f)
    ensures LocalBytes(cfg, st, f, rand) > 0 ==> Xdp(cfg, st, f, rand, route).verdict == Pass
  {
    if LocalBytes(cfg, st, f, rand) == 0 {
      ModUnique(st.localBits, 0, U64_LIMIT, st.localBits);
    }
  }

  /** A packet arriving: the frame, and the random value and routing answers
      the kernel would give while processing it. */
  datatype Arrival = Arrival(frame: Frame, rand: u32, route: Route)

  /** The state `xdp_lb` leaves behind for one packet. */
  function Next(cfg: Config): (State, Arrival) -> State
  {
    (s: State, a: Arrival) => Xdp(cfg, s, a.frame, a.rand, a.route).state
  }

  /** What one packet adds to `total_bits` and to `local_bits`. */
  function ServedOf(cfg: Config): (State, Arrival) -> nat
  {
    (s: State, a: Arrival) => ServedBytes(cfg, a.frame)
  }

  function LocalOf(cfg: Config): (State, Arrival) -> nat
  {
    (s: State, a: Arrival) => LocalBytes(cfg, s, a.frame, a.rand)
  }

  /** The two statistics counters. */
  datatype Counter = TotalBitsCounter | LocalBitsCounter

  function Read(c: Counter, st: State): u64
  {
    match c
    case TotalBitsCounter => st.totalBits
    case LocalBitsCounter => st.localBits
  }

  /** The state after the packets of `ps`, one after the other. */
  function Fold(step: (State, Arrival) -> State, st: State, ps: seq<Arrival>): State
    decreases |ps|
  {
    if ps == [] then st else Fold(step, step(st, ps[0]), ps[1..])
  }

  /** The sum of what `bytes` counts for each packet of `ps`, each taken in
      the state it finds. */
  function SumAlong(bytes: (State, Arrival) -> nat, step: (State, Arrival) -> State, st: State, ps: seq<Arrival>): nat
    decreases |ps|
  {
    if ps == [] then 0 else bytes(st, ps[0]) + SumAlong(bytes, step, step(st, ps[0]), ps[1..])
  }

  /** `xdp_lb` run on a sequence of packets. */
  function Run(cfg: Config, st: State, ps: seq<Arrival>): State
  {
    Fold(Next(cfg), st, ps)
  }

  /** The bytes of the packets in `ps` that were for the VIP. */
  function TotalServed(cfg: Config, st: State, ps: seq<Arrival>): nat
  {
    SumAlong(ServedOf(cfg), Next(cfg), st, ps)
  }

  /** The bytes of the packets in `ps` that were kept on this host. */
  function TotalLocal(cfg: Config, st: State, ps: seq<Arrival>): nat
  {
    SumAlong(LocalOf(cfg), Next(cfg), st, ps)
  }

  /** A 64-bit counter that every step advances, with wrap-around, by what
      `bytes` counts has, after a run, advanced by the sum along the run. */
  lemma {:induction false} CounterAlongRun(step: (State, Arrival) -> State, counter: Counter,
                                           bytes: (State, Arrival) -> nat, st: State, ps: seq<Arrival>)
    requires forall s, a :: Read(counter, step(s, a)) == Wrap64(Read(counter, s) + bytes(s, a))
    ensures Read(counter, Fold(step, st, ps)) == Wrap64(Read(counter, st) + SumAlong(bytes, step, st, ps))
    decreases |ps|
  {
    if ps == [] {
      ModUnique(Read(counter, st), 0, U64_LIMIT, Read(counter, st));
    } else {
      var st1 := step(st, ps[0]);
      CounterAlongRun(step, counter, bytes, st1, ps[1..]);
      AddInTwoSteps(Read(counter, st), bytes(st, ps[0]), SumAlong(bytes, step, st1, ps[1..]),
                    SumAlong(bytes, step, st, ps), Read(counter, st1), Read(counter, Fold(step, st1, ps[1..])));
    }
  }

  /** A count that never exceeds another at any step never exceeds it over
      a run. */
  lemma {:induction false} SumAlongBounded(small: (State, Arrival) -> nat, large: (State, Arrival) -> nat,
                                           step: (State, Arrival) -> State, st: State, ps: seq<Arrival>)
    requires forall s, a :: small(s, a) <= large(s, a)
    ensures SumAlong(small, step, st, ps) <= SumAlong(large, step, st, ps)
    decreases |ps|
  {
    if ps != [] {
      SumAlongBounded(small, large, step, step(st, ps[0]), ps[1..]);
    }
  }

  /** The per-packet facts above, for every state and packet at once. */
  lemma StepCounts(cfg: Config)
    ensures forall s, a :: Next(cfg)(s, a).totalBits == Wrap64(s.totalBits + ServedOf(cfg)(s, a))
    ensures forall s, a :: Next(cfg)(s, a).localBits == Wrap64(s.localBits + LocalOf(cfg)(s, a))
    ensures forall s, a :: LocalOf(cfg)(s, a) <= ServedOf(cfg)(s, a)
  {
    forall s: State, a: Arrival
      ensures Next(cfg)(s, a).totalBits == Wrap64(s.totalBits + ServedOf(cfg)(s, a))
    {
      TotalBitsStep(cfg, s, a.frame, a.rand, a.route);
    }
    forall s: State, a: Arrival
      ensures Next(cfg)(s, a).localBits == Wrap64(s.localBits + LocalOf(cfg)(s, a))
      ensures LocalOf(cfg)(s, a) <= ServedOf(cfg)(s, a)
    {
      LocalBitsStep(cfg, s, a.frame, a.rand, a.route);
    }
  }

  /** Over any sequence of packets, `total_bits` grows (mod 2^64) by the
      sizes of the packets for the VIP. */
  lemma RunTotalBits(cfg: Config, st: State, ps: seq<Arrival>)
    ensures Run(cfg, st, ps).totalBits == Wrap64(st.totalBits + TotalServed(cfg, st, ps))
  {
    StepCounts(cfg);
    CounterAlongRun(Next(cfg), TotalBitsCounter, ServedOf(cfg), st, ps);
  }

  /** Over any sequence of packets, `local_bits` grows (mod 2^64) by the
      sizes of the packets kept on this host. */
  lemma RunLocalBits(cfg: Config, st: State, ps: seq<Arrival>)
    ensures Run(cfg, st, ps).localBits == Wrap64(st.localBits + TotalLocal(cfg, st, ps))
  {
    StepCounts(cfg);
    CounterAlongRun(Next(cfg), LocalBitsCounter, LocalOf(cfg), st, ps);
  }

  /** The packets kept on this host never add up to more bytes than the
      packets for the VIP. */
  lemma LocalWithinServed(cfg: Config, st: State, ps: seq<Arrival>)
    ensures TotalLocal(cfg, st, ps) <= TotalServed(cfg, st, ps)
  {
    StepCounts(cfg);
    SumAlongBounded(LocalOf(cfg), ServedOf(cfg), Next(cfg), st, ps);
  }

  /** Both maps stay within their capacities over any sequence of packets. */
  lemma {:induction false} RunKeepsValid(cfg: Config, st: State, ps: seq<Arrival>)
    requires StateValid(cfg, st)
    ensures StateValid(cfg, Run(cfg, st, ps))
    decreases |ps|
  {
    if ps != [] {
      var a := ps[0];
      XdpKeepsValid(cfg, st, a.frame, a.rand, a.route);
      RunKeepsValid(cfg, Next(cfg)(st, a), ps[1..]);
    }
  }

  /** A counter advanced by `x` and then by `y` has advanced by `x + y`. */
  lemma AddInTwoSteps(c: int, x: int, y: int, sum: int, mid: int, end: int)
    requires sum == x + y && mid == Wrap64(c + x) && end == Wrap64(mid + y)
    ensures end == Wrap64(c + sum)
  {
    Wrap64Add(c + x, y);
  }

  // ---------------------------------------------------------------------
  // Socket release
  // ---------------------------------------------------------------------

  /** The release of a socket that is not a stream socket, or whose peer is
      not the VIP, changes nothing; nor does the NULL `vip` the code checks
      for, which a loaded array map never returns. */
  lemma ReleaseIgnored(cfg: Config, st: State, sock: Sock)
    requires sock.sockType != SOCK_STREAM || cfg.vip.None?
      || sock.daddr != cfg.vip.value.ip || sock.dport != cfg.vip.value.port
    ensures InetRelease(cfg, st, sock) == st
  {
  }

  /** The release of a stream socket whose peer is the VIP, in `just_local`
      mode, deletes the socket's own (address, port) from `back_map` and
      leaves every other entry, the ring and the counters alone. */
  lemma ReleaseLocalMode(cfg: Config, st: State, sock: Sock)
    requires cfg.clearMode == JustLocal
    requires sock.sockType == SOCK_STREAM && cfg.vip == Some(HostMeta(sock.daddr, sock.dport))
    ensures var r := InetRelease(cfg, st, sock);
      && ConnTable.Lookup(r.table, Key(sock.saddr, sock.sport)) == None
      && (forall k :: k != Key(sock.saddr, sock.sport) ==> ConnTable.Lookup(r.table, k) == ConnTable.Lookup(st.table, k))
      && r.ring == st.ring && r.totalBits == st.totalBits && r.localBits == st.localBits && r.rrCount == st.rrCount
  {
  }

  /** In the other mode the key goes to the end of the ring if there is
      room and is lost if not; `back_map` is not touched. */
  lemma ReleaseNotifyMode(cfg: Config, st: State, sock: Sock)
    requires cfg.clearMode != JustLocal
    requires sock.sockType == SOCK_STREAM && cfg.vip == Some(HostMeta(sock.daddr, sock.dport))
    ensures var r := InetRelease(cfg, st, sock);
      && r.table == st.table
      && r.ring == (if |st.ring| < cfg.ringSlots then st.ring + [Key(sock.saddr, sock.sport)] else st.ring)
      && r.totalBits == st.totalBits && r.localBits == st.localBits && r.rrCount == st.rrCount
  {
  }

  /** After a `just_local` release, the next packet keyed like the released
      socket is a fresh connection: its backend comes from the strategy. */
  lemma ReleaseForcesFreshSelection(cfg: Config, st: State, sock: Sock, rand: u32)
    requires cfg.clearMode == JustLocal
    requires sock.sockType == SOCK_STREAM && cfg.vip == Some(HostMeta(sock.daddr, sock.dport))
    ensures var r := InetRelease(cfg, st, sock);
      Resolve(cfg, r.rrCount, r.table, Key(sock.saddr, sock.sport), rand).backend
        == Strategy.GetBackend(cfg.alg, cfg.backends, cfg.numBackends, Key(sock.saddr, sock.sport), r.rrCount, rand).0
  {
    var r := InetRelease(cfg, st, sock);
    assert ConnTable.Lookup(r.table, Key(sock.saddr, sock.sport)) == None;
  }
}
