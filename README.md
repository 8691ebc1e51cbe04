# xdp4slb: a Dafny model of the XDP software load balancer

The load balancer is one eBPF object, `src/slb.bpf.c`. It has two programs.
The XDP program `xdp_lb` runs on every received frame. It parses the
Ethernet, IPv4 and TCP headers and decides PASS, DROP or TX. A packet that
targets the configured virtual IP (VIP) and port is counted in
`total_bits`. Its client key, the source address and port, is looked up in
the connection table `back_map`. On a miss, a backend is chosen by hashing,
by round robin or at random, and stored under that key. If the backend is
this host, the packet is counted in `local_bits` and passed. Otherwise
`gen_mac` asks the kernel's routing (FIB) lookup for the next hop. The
program then rewrites the frame's MAC addresses and transmits it, or drops
or passes it by the lookup's return code. The kprobe on `inet_release`
watches stream sockets whose peer is the VIP. When one is released, it
either deletes the socket's key from `back_map` or hands the key to the
ring buffer `rb`, depending on the clear mode.

The model has seven modules:

- `Types`: fixed-width integers with explicit wrap-around, plus keys, backends and verdicts.
- `Packet`: the frame layout, the bounds-checked parse, and the MAC rewrite.
- `Fib`: the switch of `gen_mac` as `FibVerdict`. The in-place rewrite is the `GenMac` method on an `array`.
- `ConnTable`: `back_map` as a value. It holds the entries and their recency order, bounded by MAX_CONNTRACK with least-recently-used eviction.
- `Strategy`: `lb_hash`, `lb_rr`, `lb_rand` and `get_backend`.
- `Slb`: the configuration, the program state, and the specification functions `Xdp` and `InetRelease`. The class `Balancer` holds the program's globals as fields. Its methods (`XdpLb`, `GetBackend`, `LbRr`, `FireSockReleaseEvent`, `KprobeInetRelease`) update those fields and the frame array in place, and are proved to follow the specification functions.
- `SlbProperties`: what the pipeline guarantees, proved over the specification functions. This covers the early verdicts, connection affinity, forwarding, counters over any sequence of packets, the map capacity bounds, and the release paths.

Modelling decisions:
- The kernel's answers are inputs. `bpf_get_prandom_u32` becomes a `rand` argument. `bpf_fib_lookup` becomes a `route` function from (source, destination) to a return code and two MACs.
- Addresses and ports are the raw loads the program compares and hashes, read as a little-endian host reads them. The ethertype and `tot_len` go through `bpf_ntohs`.
- `total_bits` and `local_bits` wrap at 2^64, the static `count` of `lb_rr` wraps at 2^32, and `tcp_len` is truncated to 16 bits.
- A modulo by `NUM_BACKENDS == 0` leaves the dividend, as the eBPF instruction set defines it.
- `backends_map` and `vip_map` are array maps, so a lookup fails only past the last slot.
- `Config.vip` is `None` only for the NULL result that `src/slb.bpf.c:231` and `:329` check for. The eBPF verifier demands those checks, but a lookup at index 0 of the one-slot `vip_map` never fails. `SlbProperties.NoVipPasses` and the `None` case of `SlbProperties.ReleaseIgnored` describe that dead branch, not a live state with balancing switched off. A `vip_map` that was never filled reads as a zeroed `host_meta`, `Some(HostMeta(0, 0))`. `SlbProperties.UnfilledVipDrops` states what then happens: every TCP packet that is not for this host or for 0.0.0.0 is dropped.

Two behaviours of the code worth knowing, both modelled as written:
- The kprobe compares the socket's peer (`skc_daddr`/`skc_dport`) with the VIP and evicts by the socket's own `inet_saddr`/`inet_sport` (`src/slb.bpf.c:335-346`). `Slb.InetRelease` does the same.
- A packet for the VIP can be dropped even with a fresh key and a non-empty pool, when the FIB lookup reports blackhole, unreachable or prohibit (`src/slb.bpf.c:93-98`). `SlbProperties.ServedDropOnlyWhenUnroutable` states exactly when such a drop happens.

## Model

| member | source | states |
|---|---|---|
| Packet.Parse | src/slb.bpf.c:193-214 | a frame yields headers exactly when it holds the Ethernet, IPv4 and TCP headers, its ethertype is IPv4 and its protocol is TCP; every other frame yields nothing |
| Packet.TcpLen | src/slb.bpf.c:228 | the payload length is `tot_len - 4*ihl` when that is non-negative and wraps modulo 2^16 otherwise |
| Packet.HeaderLayout | src/slb.bpf.c:216-258 | the fields `ReadHeaders` takes: `ihl` is the low nibble of the first IPv4 byte, `tot_len` is read in network order through `bpf_ntohs`, and `saddr`, `daddr`, `source` and `dest` are raw little-endian loads whose stored bytes are exactly the bytes on the wire |
| Packet.RewriteMacs | src/slb.bpf.c:88-89 | bytes 0-5 become the destination MAC, bytes 6-11 the source MAC, every other byte and the length are kept |
| Packet.ParseIgnoresMacs | src/slb.bpf.c:86-92 | rewriting the MACs leaves the parse of the frame, hence every IPv4 and TCP field, unchanged |
| Fib.FibVerdict | src/slb.bpf.c:86-106 | TX exactly on success, DROP exactly on blackhole, unreachable or prohibit, PASS exactly on every other code |
| Fib.GenMac | src/slb.bpf.c:64-110 | returns the verdict of the route's code; on TX the frame array becomes the MAC-rewritten frame, otherwise it is unchanged |
| ConnTable.Lookup | src/slb.bpf.c:260 | a lookup in `back_map` finds the stored backend exactly when the key has an entry, and in a well-formed table exactly when the key is in the recency order |
| ConnTable.Touch | src/slb.bpf.c:260 | a hit keeps every entry and makes the key the most recently used one; a well-formed table stays well-formed and the same size |
| ConnTable.Insert | src/slb.bpf.c:267 | afterwards the key maps to the new backend and is the most recent; every other key keeps its backend and stays unless it is the least recently used key evicted from a full table; a table within capacity stays within it |
| ConnTable.Remove | src/slb.bpf.c:172 | the key is gone, every other key maps as before, and the result says whether the key was present |
| ConnTable.TouchKeepsRecency | src/slb.bpf.c:260 | a hit moves only the key used: every other key keeps its place in the recency order |
| ConnTable.InsertKeepsRecency | src/slb.bpf.c:267 | an insert moves or adds only its key and drops only the least recently used key when the table is full: the other keys keep their recency order |
| ConnTable.RemoveKeepsRecency | src/slb.bpf.c:172 | a delete keeps every other key in its recency order |
| ConnTable.SizeBound | src/slb.bpf.c:37-42 | a valid table holds at most MAX_CONNTRACK entries |
| ConnTable.UsedEntrySurvivesInsert | src/slb.bpf.c:37-42 | with room for two or more entries, an entry just used survives the insert of any other key |
| Strategy.BpfMod | src/slb.bpf.c:119 | the unsigned remainder is below a non-zero divisor, and is the dividend itself when the dividend is smaller or the divisor is zero |
| Strategy.ShiftLeft16 | src/slb.bpf.c:117 | a 32-bit shift left by 16 keeps only the lower 16 bits of the address |
| Strategy.HashOf | src/slb.bpf.c:117 | the hash is the 32-bit shifted address plus the port: its low half is the port, its high half the address's low half |
| Strategy.PoolLookup | src/slb.bpf.c:21-26 | a lookup in `backends_map` finds a slot exactly when the index is in range, and what it finds is in the pool |
| Strategy.SelectIndex | src/slb.bpf.c:113-136 | the index is below a non-zero NUM_BACKENDS; only round robin advances its counter, by one modulo 2^32 (which slot each selector picks is stated by `Strategy.SelectorPicks`) |
| Strategy.GetBackend | src/slb.bpf.c:138-149 | a backend found is in the pool; one is always found when 0 < NUM_BACKENDS <= pool size; only round robin advances the counter |
| Strategy.SelectorPicks | src/slb.bpf.c:113-147 | `lb_hash` picks the key's hash, `lb_rr` the counter before its increment, `lb_rand` and the default branch the random value, each modulo NUM_BACKENDS |
| Strategy.RandomReachesEverySlot | src/slb.bpf.c:132-136 | every slot below NUM_BACKENDS is the random pick of some random value |
| Strategy.HashIsDeterministic | src/slb.bpf.c:115-121 | hash selection depends on the key and the pool only, not on the counter or the random value |
| Strategy.HashSeparatesKeys | src/slb.bpf.c:117 | two keys hash alike exactly when their ports and the low halves of their addresses agree |
| Strategy.UnknownAlgIsRandom | src/slb.bpf.c:145-147 | a selector outside the enum selects as `lb_rand` does |
| Strategy.RoundRobinPicksFrom | src/slb.bpf.c:124-129 | chaining `SelectIndex` through the counter it returns, the i-th round-robin pick takes the starting counter plus i, modulo NUM_BACKENDS, until the counter wraps |
| Strategy.RoundRobinAdvances | src/slb.bpf.c:124-129 | until the counter wraps, successive round-robin picks visit successive slots modulo NUM_BACKENDS |
| Strategy.RoundRobinIsFair | src/slb.bpf.c:124-129 | NUM_BACKENDS successive picks without a wrap land on NUM_BACKENDS different slots below NUM_BACKENDS, so each backend is picked once |
| Strategy.RoundRobinWraps | src/slb.bpf.c:125-126 | after counter 2^32 - 1 the next pick is slot 0; that continues the cycle exactly when NUM_BACKENDS divides 2^32 |
| Slb.Classify | src/slb.bpf.c:194-252 | a packet reaches the VIP path only as IPv4/TCP with a VIP configured; an early verdict is never TX, and an early DROP only happens for IPv4/TCP with a VIP |
| Slb.Resolve | src/slb.bpf.c:260-268 | a backend returned is what the table afterwards maps the client key to |
| Slb.ServeVip | src/slb.bpf.c:253-280 | the frame keeps its length and the ring is untouched |
| Slb.Xdp | src/slb.bpf.c:188-286 | the frame keeps its length and the ring is untouched |
| Slb.FireSockRelease | src/slb.bpf.c:166-185 | neither counter nor the round-robin counter changes |
| Slb.InetRelease | src/slb.bpf.c:316-350 | neither counter nor the round-robin counter changes |
| Slb.ResolveKeepsValid | src/slb.bpf.c:260-268 | the affinity step keeps `back_map` within MAX_CONNTRACK entries |
| Slb.ServeVipKeepsValid | src/slb.bpf.c:253-276 | the VIP path keeps both maps within capacity |
| Slb.XdpKeepsValid | src/slb.bpf.c:188-286 | every packet keeps both maps within capacity |
| Slb.FireSockReleaseKeepsValid | src/slb.bpf.c:166-185 | a release event keeps both maps within capacity: a delete shrinks `back_map`, `rb` only grows when it has room |
| Slb.InetReleaseKeepsValid | src/slb.bpf.c:316-350 | the kprobe keeps both maps within capacity |
| Slb.Balancer.constructor | src/slb.bpf.c:45-48 | the program starts with zero counters and empty maps |
| Slb.Balancer.LbRr | src/slb.bpf.c:123-129 | returns the slot the old counter selects and advances the counter by one modulo 2^32 |
| Slb.Balancer.GetBackend | src/slb.bpf.c:138-149 | the backend and the new counter are those of `Strategy.GetBackend` |
| Slb.Balancer.XdpLb | src/slb.bpf.c:187-286 | the verdict, the new globals and the frame bytes are those of `Xdp`; the maps stay within capacity |
| Slb.Balancer.ServeVipPacket | src/slb.bpf.c:253-276 | the verdict, the new globals and the frame bytes are those of `ServeVip` |
| Slb.Balancer.FireSockReleaseEvent | src/slb.bpf.c:165-185 | the new globals are those of `FireSockRelease`; the maps stay within capacity |
| Slb.Balancer.KprobeInetRelease | src/slb.bpf.c:316-350 | returns 0; the new globals are those of `InetRelease` |
| SlbProperties.MalformedFramePasses | src/slb.bpf.c:194-214 | a frame that is short, not IPv4 or not TCP passes with nothing changed |
| SlbProperties.LocalDestinationPasses | src/slb.bpf.c:216-226 | a packet addressed to this host passes with nothing changed, before the VIP or the length is looked at |
| SlbProperties.NoVipPasses | src/slb.bpf.c:230-235 | in the NULL-VIP branch, which a loaded program never takes, every other TCP packet passes with nothing changed |
| SlbProperties.OversizedPayloadDrops | src/slb.bpf.c:242-245 | a payload (after the 16-bit wrap) over TCP_MAX_BITS is dropped with nothing changed |
| SlbProperties.PortMismatchDrops | src/slb.bpf.c:248-252 | the VIP's address on another port is dropped with nothing changed |
| SlbProperties.UnfilledVipDrops | src/slb.bpf.c:230-284 | with the zeroed VIP of an unfilled `vip_map`, every TCP packet not for this host or for 0.0.0.0 is dropped with nothing changed |
| SlbProperties.ForeignDestinationDrops | src/slb.bpf.c:281-284 | a destination that is neither this host nor the VIP is dropped with nothing changed |
| SlbProperties.ServedExactly | src/slb.bpf.c:194-259 | a packet reaches the VIP path exactly when it passes every check, and its key is its source address and port |
| SlbProperties.UnservedChangesNothing | src/slb.bpf.c:194-252 | a packet off the VIP path changes no state, keeps its frame and is never transmitted |
| SlbProperties.HitUsesStoredBackend | src/slb.bpf.c:260-261 | a table hit returns the stored backend, leaves the round-robin counter and the entries as they were, and leaves the table as `Touch` makes it, with the key as the most recently used |
| SlbProperties.MissStoresSelection | src/slb.bpf.c:261-267 | on a miss the strategy's choice is returned and its counter kept; the table becomes the old table with the choice inserted under the key, every other entry as `Insert` keeps it; when the strategy finds nothing the table is unchanged |
| SlbProperties.ServedStepResolves | src/slb.bpf.c:253-268 | after a served packet the round-robin counter and `back_map` are those the affinity step left, so the counter carries over to the next packet |
| SlbProperties.OtherConnectionKeepsBackend | src/slb.bpf.c:260-267 | a packet of another client leaves the entry of a key alone unless storing that client's choice evicts it as the least recently used entry |
| SlbProperties.EntryKeptByPacket | src/slb.bpf.c:260-267 | a packet that does not evict a key keeps its stored backend: the key's own packets are hits, the others insert elsewhere |
| SlbProperties.AffinityAlongRun | src/slb.bpf.c:254-268 | unless some packet evicts its entry, a connection keeps its backend through any sequence of packets, and its next packet goes to that backend |
| SlbProperties.Affinity | src/slb.bpf.c:254-268 | once a key is resolved to a backend, resolving it again yields the same backend whatever the random value |
| SlbProperties.ConnectionAffinity | src/slb.bpf.c:254-268 | two successive packets of one client connection to the VIP go to the same backend |
| SlbProperties.NoBackendPasses | src/slb.bpf.c:262-266 | when the strategy finds nothing the packet passes, counted in `total_bits` only, with the table and frame unchanged |
| SlbProperties.ServedPacketFindsBackend | src/slb.bpf.c:260-266 | with a full pool every packet for the VIP gets a backend, from the pool or from the table |
| SlbProperties.TableStaysBounded | src/slb.bpf.c:37-42 | after any packet `back_map` holds at most MAX_CONNTRACK entries |
| SlbProperties.ForwardedVerdict | src/slb.bpf.c:276 | a packet for a remote backend gets the route's verdict, is dropped exactly when unroutable, and leaves MAC-rewritten exactly on success |
| SlbProperties.ServedDropOnlyWhenUnroutable | src/slb.bpf.c:247-285 | a packet for the VIP is dropped only when its backend is remote and unroutable |
| SlbProperties.ForwardingKeepsHeaders | src/slb.bpf.c:86-92 | every packet leaves with the IPv4 and TCP headers it came with, and unchanged unless transmitted |
| SlbProperties.TotalBitsStep | src/slb.bpf.c:253 | one packet adds its size to `total_bits` (mod 2^64) exactly when it is for the VIP's address and port |
| SlbProperties.LocalBitsStep | src/slb.bpf.c:269-274 | one packet adds its size to `local_bits` (mod 2^64) only when served by this host, never more than it adds to `total_bits`, and such a packet passes |
| SlbProperties.StepCounts | src/slb.bpf.c:253-274 | the two per-packet counter facts hold for every state and packet |
| SlbProperties.CounterAlongRun | src/slb.bpf.c:46-48 | a 64-bit counter that every step advances by some amount has, after a run, advanced by the sum of those amounts modulo 2^64 |
| SlbProperties.RunTotalBits | src/slb.bpf.c:253 | over any packet sequence `total_bits` grows (mod 2^64) by the bytes of the packets for the VIP |
| SlbProperties.RunLocalBits | src/slb.bpf.c:270 | over any packet sequence `local_bits` grows (mod 2^64) by the bytes of the packets kept on this host |
| SlbProperties.LocalWithinServed | src/slb.bpf.c:253-270 | the bytes kept on this host never exceed the bytes for the VIP |
| SlbProperties.RunKeepsValid | src/slb.bpf.c:37-53 | over any packet sequence both maps stay within their capacities |
| SlbProperties.ReleaseIgnored | src/slb.bpf.c:324-340 | a non-stream socket, a missing VIP or a peer other than the VIP leaves the state unchanged |
| SlbProperties.ReleaseLocalMode | src/slb.bpf.c:167-174 | in `just_local` mode the socket's own key is deleted from `back_map`; every other entry, the ring and the counters stay |
| SlbProperties.ReleaseNotifyMode | src/slb.bpf.c:175-184 | otherwise the key is appended to `rb` when it has room and lost when not; `back_map` and the counters stay |
| SlbProperties.ReleaseForcesFreshSelection | src/slb.bpf.c:340-346 | after a `just_local` release the released key's next backend comes from the strategy |

## Left out

- The `bpf_printk` tracing and `print_mac` are left out: they only write to the trace pipe.
- The kernel's routing table is left out. `bpf_fib_lookup` is an input function from (source, destination) to its return code and MACs, so the `tos`, `l4_protocol`, `tot_len` and `ifindex` fields sent with the lookup play no part.
- `bpf_get_prandom_u32` is left out. Its value is an input.
- `BPF_CORE_READ` and the kernel's socket structures are left out. The kprobe sees a record of the five fields it reads. `sk_protocol` is read and never used, so it is not in that record.
- Byte order is modelled for a little-endian host only.
- The kernel's LRU hash map approximates least-recently-used order with per-CPU lists. The model evicts in exact least-recently-used order, and only when the table is full.
- The capacity of `rb` is counted in records (`ringSlots`), not in the RING_BUFF_MAX bytes of the ring buffer. The userspace consumer of `rb` is not part of this model: nothing is ever taken off the ring.
- Concurrency is left out. Several CPUs running `xdp_lb` at once race on the counters, on `count` and on `back_map`. The model runs one packet at a time.
- `fire_metrics_event` and `rele_hdl` are commented out in the source and are left out.
- The loader, the license section and the values of `slb.h` are left out. MAX_BACKEND, MAX_CONNTRACK and TCP_MAX_BITS are configuration parameters. `cur_lb_alg` and `cur_clear_mode` are the enums `LbAlg` and `ClearMode`, with an unknown algorithm code kept as `LbOther`.
- IP options are not skipped. The TCP header is taken right after a 20-byte IPv4 header, as the code does.
- Slb.Xdp: its own contract states only the frame length and the untouched ring. Everything else about a packet is stated by the `SlbProperties` lemmas.
- Slb.ServeVip: its own contract states only the frame length and the untouched ring. The counters, affinity and forwarding are stated by the `SlbProperties` lemmas.
- Slb.FireSockRelease: its own contract states only that the counters stay. The table and the ring are stated by `SlbProperties.ReleaseLocalMode` and `SlbProperties.ReleaseNotifyMode`.
- Slb.InetRelease: its own contract states only that the counters stay. The filter is stated by `SlbProperties.ReleaseIgnored` and the two mode lemmas.
