/** `back_map`: the connection table, a hash map from client key to backend
    bounded by MAX_CONNTRACK entries that evicts the least recently used
    entry when an insert finds it full (BPF_MAP_TYPE_LRU_HASH). The table is
    a value: the entries and the recency order, least recent first. */
module ConnTable {
  import opened Types

  datatype Table = Table(entries: map<Key, HostMeta>, order: seq<Key>)

  const Empty: Table := Table(map[], [])

  ghost predicate Distinct(s: seq<Key>)
  {
    forall i, j :: 0 <= i < j < |s| ==> s[i] != s[j]
  }

  /** The recency order lists each stored key exactly once. */
  ghost predicate WellFormed(t: Table)
  {
    Distinct(t.order) && (forall k :: k in t.entries <==> k in t.order)
  }

  /** A well-formed table of no more than `capacity` entries. */
  ghost predicate Valid(t: Table, capacity: nat)
  {
    WellFormed(t) && |t.order| <= capacity
  }

  /** `bpf_map_lookup_elem(&back_map, &key)`. */
  function Lookup(t: Table, k: Key): (r: Option<HostMeta>)
    ensures r.Some? <==> k in t.entries
    ensures r.Some? ==> r.value == t.entries[k] && r.value in t.entries.Values
    ensures WellFormed(t) ==> (r.Some? <==> k in t.order)
  {
    if k in t.entries then Some(t.entries[k]) else None
  }

  /** The order with `k` taken out. */
  function Without(s: seq<Key>, k: Key): (r: seq<Key>)
    ensures forall x :: x in r <==> x in s && x != k
    ensures Distinct(s) ==> Distinct(r)
    ensures Distinct(s) && k in s ==> |r| == |s| - 1
    ensures k !in s ==> r == s
  {
    if s == [] then []
    else if s[0] == k then Without(s[1..], k)
    else
      var rest := Without(s[1..], k);
      assert Distinct(s) ==> s[0] !in s[1..] && s[0] !in rest;
      [s[0]] + rest
  }

  /** Taking a key out of a concatenation takes it out of both parts. */
  lemma {:induction false} WithoutAppend(s: seq<Key>, u: seq<Key>, k: Key)
    ensures Without(s + u, k) == Without(s, k) + Without(u, k)
  {
    if s == [] {
      assert s + u == u;
    } else {
      var su := s + u;
      assert su[0] == s[0] && su[1..] == s[1..] + u;
      WithoutAppend(s[1..], u, k);
      if s[0] == k {
        calc {
          Without(su, k);
          Without(s[1..] + u, k);
          Without(s[1..], k) + Without(u, k);
          Without(s, k) + Without(u, k);
        }
      } else {
        calc {
          Without(su, k);
          [s[0]] + Without(s[1..] + u, k);
          [s[0]] + (Without(s[1..], k) + Without(u, k));
          ([s[0]] + Without(s[1..], k)) + Without(u, k);
          Without(s, k) + Without(u, k);
        }
      }
    }
  }

  /** A hit marks the entry as the most recently used one. */
  function Touch(t: Table, k: Key): (r: Table)
    ensures r.entries == t.entries
    ensures k in t.entries ==> |r.order| > 0 && r.order[|r.order| - 1] == k
    ensures WellFormed(t) ==> WellFormed(r) && |r.order| == |t.order|
  {
    if k in t.entries then Table(t.entries, Without(t.order, k) + [k]) else t
  }

  /** The entry an insert of `k` pushes out: the least recently used one,
      when `k` is new and the table is full. */
  function Victim(t: Table, k: Key, capacity: nat): Option<Key>
  {
    if k !in t.entries && |t.order| >= capacity && t.order != [] then Some(t.order[0]) else None
  }

  /** `bpf_map_update_elem(&back_map, &key, v, BPF_ANY)`: create or replace
      the entry for `k`, first evicting the least recently used entry when
      `k` is new and the table is full. */
  function Insert(t: Table, k: Key, v: HostMeta, capacity: nat): (r: Table)
    ensures Lookup(r, k) == Some(v)
    ensures |r.order| > 0 && r.order[|r.order| - 1] == k
    ensures capacity > 0 && Valid(t, capacity) ==> Valid(r, capacity)
    ensures forall x :: x != k ==>
      (x in r.entries <==> x in t.entries && Victim(t, k, capacity) != Some(x))
    ensures forall x :: x != k && x in r.entries ==> r.entries[x] == t.entries[x]
  {
    if k in t.entries then Table(t.entries[k := v], Without(t.order, k) + [k])
    else if |t.order| < capacity || t.order == [] then Table(t.entries[k := v], t.order + [k])
    else Table((t.entries - {t.order[0]})[k := v], t.order[1..] + [k])
  }

  /** `bpf_map_delete_elem(&back_map, &key)`: the result tells whether
      there was an entry to delete; all other entries stay. */
  function Remove(t: Table, k: Key): (r: (Table, bool))
    ensures r.1 <==> k in t.entries
    ensures Lookup(r.0, k) == None
    ensures forall x :: x != k ==> Lookup(r.0, x) == Lookup(t, x)
    ensures WellFormed(t) ==> WellFormed(r.0) && |r.0.order| <= |t.order|
  {
    (Table(t.entries - {k}, Without(t.order, k)), k in t.entries)
  }

  /** Appending `k` and taking it out again gives the order without it. */
  lemma WithoutLast(s: seq<Key>, k: Key)
    ensures Without(s + [k], k) == Without(s, k)
  {
    WithoutAppend(s, [k], k);
    assert [k][1..] == [];
  }

  /** A hit moves only `k`: the other keys keep their recency order, so the
      next victim is the one it would have been. */
  lemma TouchKeepsRecency(t: Table, k: Key)
    ensures Without(Touch(t, k).order, k) == Without(t.order, k)
  {
    if k in t.entries {
      WithoutLast(Without(t.order, k), k);
    }
  }

  /** An insert moves or adds only `k` and drops only the victim, the least
      recently used key: the other keys keep their recency order. */
  lemma InsertKeepsRecency(t: Table, k: Key, v: HostMeta, capacity: nat)
    requires WellFormed(t)
    ensures Without(Insert(t, k, v, capacity).order, k)
      == if Victim(t, k, capacity).Some? then t.order[1..] else Without(t.order, k)
  {
    if k in t.entries {
      WithoutLast(Without(t.order, k), k);
    } else if |t.order| < capacity || t.order == [] {
      WithoutLast(t.order, k);
    } else {
      WithoutLast(t.order[1..], k);
      assert k !in t.order[1..];
    }
  }

  /** A delete keeps the other keys in their recency order. */
  lemma RemoveKeepsRecency(t: Table, k: Key)
    ensures Without(Remove(t, k).0.order, k) == Without(t.order, k)
  {
  }

  /** A sequence without repetitions has as many distinct elements as it is long. */
  lemma {:induction false} DistinctElements(s: seq<Key>)
    requires Distinct(s)
    ensures |set x | x in s| == |s|
  {
    if s != [] {
      DistinctElements(s[1..]);
      assert (set x | x in s) == (set x | x in s[1..]) + {s[0]};
      assert s[0] !in s[1..];
    }
  }

  /** The table never holds more than `capacity` entries. */
  lemma SizeBound(t: Table, capacity: nat)
    requires Valid(t, capacity)
    ensures |t.entries| <= capacity
  {
    DistinctElements(t.order);
    assert t.entries.Keys == set x | x in t.order;
  }

  /** Least-recently-used eviction: an entry that was just used survives
      the insert of any other key, however full the table. */
  lemma UsedEntrySurvivesInsert(t: Table, k: Key, other: Key, v: HostMeta, capacity: nat)
    requires capacity > 1 && Valid(t, capacity)
    requires k in t.entries && other != k
    ensures Lookup(Insert(Touch(t, k), other, v, capacity), k) == Lookup(t, k)
  {
    var u := Touch(t, k);
    assert u.order[|u.order| - 1] == k;
  }
}
