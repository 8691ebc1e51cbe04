/** Backend selection: `lb_hash`, `lb_rr`, `lb_rand` and the `get_backend`
    switch over the configured algorithm. Each computes an index into
    `backends_map` and looks it up there. */
module Strategy {
  import opened Types

  /** The algorithm selector `cur_lb_alg`; a value outside the enum is kept
      as `LbOther` and is served by the switch's `default` branch. */
  datatype LbAlg = LbNHash | LbRoundRobin | LbRandom | LbOther(code: u32)

  /** Unsigned 32-bit `x % n` as the eBPF instruction set defines it: a
      modulo by zero leaves the dividend unchanged. */
  function BpfMod(x: u32, n: u32): (r: u32)
    ensures n > 0 ==> r < n
    ensures x < n || n == 0 ==> r == x
  {
    if n == 0 then x
    else
      assert x < n ==> x % n == x by {
        if x < n {
          ModUnique(x, 0, n, x);
        }
      }
      x % n
  }

  /** `(nat_key->ip << 16) | nat_key->port` in 32-bit arithmetic. The
      shift drops the address's upper half and leaves 16 zero bits, which
      the port fills: the hash is the address's lower half, then the port. */
  function HashOf(k: Key): (h: u32)
    ensures h == Wrap32(k.ip * U16_LIMIT) + k.port
    ensures h % U16_LIMIT == k.port && h / U16_LIMIT == k.ip % U16_LIMIT
  {
    ShiftLeft16(k.ip);
    ModUnique(k.ip % U16_LIMIT * U16_LIMIT + k.port, k.ip % U16_LIMIT, U16_LIMIT, k.port);
    k.ip % U16_LIMIT * U16_LIMIT + k.port
  }

  /** A left shift by 16 in 32 bits keeps only the lower half of the value. */
  lemma ShiftLeft16(x: u32)
    ensures Wrap32(x * U16_LIMIT) == x % U16_LIMIT * U16_LIMIT
  {
    var q, r := x / U16_LIMIT, x % U16_LIMIT;
    assert x * U16_LIMIT == q * U32_LIMIT + r * U16_LIMIT;
    ModUnique(x * U16_LIMIT, q, U32_LIMIT, r * U16_LIMIT);
  }

  /** `backends_map` is an array map of MAX_BACKEND slots: a lookup inside
      it always finds a slot, a lookup past its end finds nothing. */
  function PoolLookup(pool: seq<HostMeta>, idx: u32): (r: Option<HostMeta>)
    ensures r.Some? <==> idx < |pool|
    ensures r.Some? ==> r.value in pool
  {
    if idx < |pool| then Some(pool[idx]) else None
  }

  /** The backend index `get_backend` computes, and the round-robin
      counter afterwards: `lb_hash` uses the key, `lb_rr` the counter
      (post-incremented, wrapping at 2^32), `lb_rand` and the default branch
      the random value. */
  function SelectIndex(alg: LbAlg, n: u32, k: Key, count: u32, rand: u32): (r: (u32, u32))
    ensures n > 0 ==> r.0 < n
    ensures r.1 == if alg == LbRoundRobin then Wrap32(count + 1) else count
  {
    match alg
    case LbNHash => (BpfMod(HashOf(k), n), count)
    case LbRoundRobin => (BpfMod(count, n), Wrap32(count + 1))
    case _ => (BpfMod(rand, n), count)
  }

  /** `get_backend(alg, key)`: the chosen pool slot (nothing when the index
      lies past the pool) and the round-robin counter afterwards. */
  function GetBackend(alg: LbAlg, pool: seq<HostMeta>, n: u32, k: Key, count: u32, rand: u32)
    : (r: (Option<HostMeta>, u32))
    ensures r.0.Some? ==> r.0.value in pool
    ensures 0 < n <= |pool| ==> r.0.Some?
    ensures r.1 == if alg == LbRoundRobin then Wrap32(count + 1) else count
  {
    var (idx, count') := SelectIndex(alg, n, k, count, rand);
    (PoolLookup(pool, idx), count')
  }

  /** Hash selection depends on the key alone: every balancer instance,
      whatever its counter or random source, picks the same backend. */
  lemma HashIsDeterministic(pool: seq<HostMeta>, n: u32, k: Key, c1: u32, r1: u32, c2: u32, r2: u32)
    ensures GetBackend(LbNHash, pool, n, k, c1, r1).0 == GetBackend(LbNHash, pool, n, k, c2, r2).0
    ensures GetBackend(LbNHash, pool, n, k, c1, r1).0 == PoolLookup(pool, BpfMod(HashOf(k), n))
  {
  }

  /** Two keys that differ only in the upper half of the address hash alike;
      keys that differ in the port or the address's lower half never do. */
  lemma HashSeparatesKeys(k1: Key, k2: Key)
    ensures HashOf(k1) == HashOf(k2) <==> k1.port == k2.port && k1.ip % U16_LIMIT == k2.ip % U16_LIMIT
  {
    var h1, h2 := HashOf(k1), HashOf(k2);
    if k1.port == k2.port && k1.ip % U16_LIMIT == k2.ip % U16_LIMIT {
      assert h1 == h2;
    }
  }

  /** A selector outside the enum falls back to random selection. */
  lemma UnknownAlgIsRandom(code: u32, pool: seq<HostMeta>, n: u32, k: Key, count: u32, rand: u32)
    ensures GetBackend(LbOther(code), pool, n, k, count, rand) == GetBackend(LbRandom, pool, n, k, count, rand)
  {
  }

  /** The slot each selector picks: `lb_hash` the key's hash, `lb_rr` the
      counter before its increment, `lb_rand` and the default branch the
      random value, each modulo NUM_BACKENDS. */
  lemma SelectorPicks(alg: LbAlg, n: u32, k: Key, count: u32, rand: u32)
    ensures var idx := SelectIndex(alg, n, k, count, rand).0;
      && (alg == LbNHash ==> idx == BpfMod(HashOf(k), n))
      && (alg == LbRoundRobin ==> idx == BpfMod(count, n))
      && (alg != LbNHash && alg != LbRoundRobin ==> idx == BpfMod(rand, n))
  {
  }

  /** Random selection can land on any slot: each slot below N is the pick
      of the random value equal to it. */
  lemma RandomReachesEverySlot(n: u32, k: Key, count: u32, slot: u32)
    requires slot < n
    ensures SelectIndex(LbRandom, n, k, count, slot).0 == slot
  {
  }

  /** The slots `m` successive round-robin selections pick, each starting
      from the counter the one before left behind. */
  function RoundRobinPicks(n: u32, k: Key, count: u32, rand: u32, m: nat): (picks: seq<u32>)
    ensures |picks| == m
    decreases m
  {
    if m == 0 then []
    else
      var (idx, count') := SelectIndex(LbRoundRobin, n, k, count, rand);
      [idx] + RoundRobinPicks(n, k, count', rand, m - 1)
  }

  /** Until the counter wraps, the i-th pick takes the counter plus i. */
  lemma {:induction false} RoundRobinPicksFrom(n: u32, k: Key, count: u32, rand: u32, m: nat)
    requires count + m <= U32_LIMIT
    ensures forall i :: 0 <= i < m ==> RoundRobinPicks(n, k, count, rand, m)[i] == BpfMod(count + i, n)
    decreases m
  {
    if m > 0 {
      var picks := RoundRobinPicks(n, k, count, rand, m);
      if m > 1 {
        RoundRobinPicksFrom(n, k, count + 1, rand, m - 1);
        assert picks[1..] == RoundRobinPicks(n, k, count + 1, rand, m - 1);
      }
    }
  }

  /** Adding to the dividend moves the remainder along modulo `n`. */
  lemma ModShift(x: nat, i: nat, n: nat)
    requires n > 0
    ensures (x + i) % n == (x % n + i) % n
  {
    var q, r := x / n, x % n;
    var q', s := (r + i) / n, (r + i) % n;
    assert x + i == (q + q') * n + s by {
      assert x == q * n + r && r + i == q' * n + s;
    }
    ModUnique(x + i, q + q', n, s);
  }

  /** Successive round-robin picks visit successive slots modulo N, until
      the counter wraps at 2^32. */
  lemma RoundRobinAdvances(n: u32, k: Key, count: u32, rand: u32, m: nat)
    requires n > 0 && count + m <= U32_LIMIT
    ensures var picks := RoundRobinPicks(n, k, count, rand, m);
      forall i :: 0 <= i < m ==> picks[i] == (BpfMod(count, n) + i) % n
  {
    var picks := RoundRobinPicks(n, k, count, rand, m);
    RoundRobinPicksFrom(n, k, count, rand, m);
    forall i | 0 <= i < m
      ensures picks[i] == (BpfMod(count, n) + i) % n
    {
      assert picks[i] == BpfMod(count + i, n);
      ModShift(count, i, n);
    }
  }

  /** Two remainders `i` and `j` apart, with `0 < j - i < n`, differ. */
  lemma DistinctResidues(x: nat, i: nat, j: nat, n: nat)
    requires i < j < n
    ensures (x + i) % n != (x + j) % n
  {
    var qi, qj := (x + i) / n, (x + j) / n;
    var ri, rj := (x + i) % n, (x + j) % n;
    var pi, pj := qi * n, qj * n;
    assert x + i == pi + ri && x + j == pj + rj;
    if ri == rj {
      assert pj - pi == j - i;
      assert pj - pi == (qj - qi) * n;
      MulSign(qj - qi, n);
    }
  }

  /** N successive round-robin picks that do not wrap the counter land on
      N different slots below N: each backend is used exactly once. */
  lemma RoundRobinIsFair(n: u32, k: Key, count: u32, rand: u32)
    requires n > 0 && count + n <= U32_LIMIT
    ensures var picks := RoundRobinPicks(n, k, count, rand, n);
      forall i, j :: 0 <= i < j < n ==> picks[i] < n && picks[i] != picks[j]
  {
    var picks := RoundRobinPicks(n, k, count, rand, n);
    RoundRobinPicksFrom(n, k, count, rand, n);
    forall i, j | 0 <= i < j < n
      ensures picks[i] < n && picks[i] != picks[j]
    {
      assert picks[i] == BpfMod(count + i, n) && picks[j] == BpfMod(count + j, n);
      DistinctResidues(count, i, j, n);
    }
  }

  /** At 2^32 - 1 the counter wraps to 0, so the pick after it is slot 0.
      That continues the cycle exactly when N divides 2^32; for any other N
      the slots after the last full cycle get one pick fewer. */
  lemma RoundRobinWraps(n: u32, k: Key, rand: u32)
    requires n > 0
    ensures var picks := RoundRobinPicks(n, k, U32_LIMIT - 1, rand, 2);
      picks[1] == 0 && (picks[1] == (picks[0] + 1) % n <==> U32_LIMIT % n == 0)
  {
    var picks := RoundRobinPicks(n, k, U32_LIMIT - 1, rand, 2);
    assert picks[1..] == RoundRobinPicks(n, k, 0, rand, 1);
    var q, r := (U32_LIMIT - 1) / n, (U32_LIMIT - 1) % n;
    assert picks[0] == r;
    if r == n - 1 {
      assert U32_LIMIT == (q + 1) * n + 0;
      ModUnique(U32_LIMIT, q + 1, n, 0);
      ModUnique(r + 1, 1, n, 0);
    } else {
      assert U32_LIMIT == q * n + (r + 1);
      ModUnique(U32_LIMIT, q, n, r + 1);
      ModUnique(r + 1, 0, n, r + 1);
    }
  }
}
