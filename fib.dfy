/** `gen_mac`: the routing (FIB) lookup's return code decides the verdict,
    and on success the frame's Ethernet addresses are rewritten in place. */
module Fib {
  import opened Types
  import opened Packet

  // Return codes of bpf_fib_lookup (enum in the kernel's uapi bpf.h).
  const BPF_FIB_LKUP_RET_SUCCESS: int := 0
  const BPF_FIB_LKUP_RET_BLACKHOLE: int := 1
  const BPF_FIB_LKUP_RET_UNREACHABLE: int := 2
  const BPF_FIB_LKUP_RET_PROHIBIT: int := 3
  const BPF_FIB_LKUP_RET_NOT_FWDED: int := 4
  const BPF_FIB_LKUP_RET_FWD_DISABLED: int := 5
  const BPF_FIB_LKUP_RET_UNSUPP_LWT: int := 6
  const BPF_FIB_LKUP_RET_NO_NEIGH: int := 7
  const BPF_FIB_LKUP_RET_FRAG_NEEDED: int := 8

  /** What the kernel's routing lookup reports: its return code and, on
      success, the next hop's MAC and the egress interface's MAC. */
  datatype FibResult = FibResult(rc: int, dmac: Mac, smac: Mac)

  /** The routing lookup from a source to a destination IPv4 address,
      supplied by the environment (the kernel's FIB is not modelled). */
  type Route = (u32, u32) -> FibResult

  /** Codes for which the destination cannot be reached at all. */
  predicate IsUnroutable(rc: int)
  {
    rc == BPF_FIB_LKUP_RET_BLACKHOLE || rc == BPF_FIB_LKUP_RET_UNREACHABLE || rc == BPF_FIB_LKUP_RET_PROHIBIT
  }

  /** The switch of `gen_mac`: success transmits, blackhole / unreachable /
      prohibit drop, and every other code (the five "not forwarded" codes
      and any code the switch does not list) keeps the initial XDP_PASS. */
  function FibVerdict(rc: int): (v: Verdict)
    ensures v == Tx <==> rc == BPF_FIB_LKUP_RET_SUCCESS
    ensures v == Drop <==> IsUnroutable(rc)
    ensures v == Pass <==> rc != BPF_FIB_LKUP_RET_SUCCESS && !IsUnroutable(rc)
  {
    if rc == BPF_FIB_LKUP_RET_SUCCESS then Tx
    else if IsUnroutable(rc) then Drop
    else Pass
  }

  /** `gen_mac(ctx, eth, iph, src, dst)`: look up the route and, on success,
      copy the next hop's MAC into `h_dest` and ours into `h_source`. */
  method GenMac(frame: array<u8>, route: Route, src: u32, dst: u32) returns (v: Verdict)
    requires frame.Length >= ETH_HLEN
    modifies frame
    ensures v == FibVerdict(route(src, dst).rc)
    ensures frame[..] == if v == Tx then RewriteMacs(old(frame[..]), route(src, dst).dmac, route(src, dst).smac)
                         else old(frame[..])
  {
    var fib := route(src, dst);
    v := Pass;
    if fib.rc == BPF_FIB_LKUP_RET_SUCCESS {
      forall i | 0 <= i < ETH_ALEN {
        frame[i] := fib.dmac[i];
      }
      forall i | ETH_ALEN <= i < 2 * ETH_ALEN {
        frame[i] := fib.smac[i - ETH_ALEN];
      }
      v := Tx;
      assert frame[..] == RewriteMacs(old(frame[..]), fib.dmac, fib.smac);
    } else if IsUnroutable(fib.rc) {
      v := Drop;
    }
  }
}
