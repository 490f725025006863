/** The bounded table that remembers where each redirected client was going. */
module Flow {
  import opened Addresses
  import opened Bytes
  import opened Wrappers

  datatype Protocol = Tcp | Udp

  datatype FlowKey = FlowKey(protocol: Protocol, clientIp: IpAddr, clientPort: U16)

  datatype FlowValue = FlowValue(
    originalIp: IpAddr, originalPort: U16,
    redirectedIp: IpAddr, redirectedPort: U16,
    createdAt: nat, lastSeen: nat)

  type Flows = map<FlowKey, FlowValue>

  /** `FlowValue::new`: both stamps are the clock reading taken when the value is built. */
  function NewFlow(ip: IpAddr, port: U16, localIp: IpAddr, localPort: U16, now: nat): FlowValue {
    FlowValue(ip, port, localIp, localPort, now, now)
  }

  // ---------------------------------------------------------------------------
  // The table operations as relations between table contents
  // ---------------------------------------------------------------------------

  ghost predicate IsOldest(flows: Flows, victim: FlowKey) {
    victim in flows && forall k :: k in flows ==> flows[victim].lastSeen <= flows[k].lastSeen
  }

  /** A full, non-empty table gives up one of its oldest entries, whichever the hash order meets first;
      the new entry is then stored. This happens even when the key was already present. */
  ghost predicate Inserted(before: Flows, capacity: nat, key: FlowKey, value: FlowValue, after: Flows) {
    if |before| >= capacity && before != map[] then
      exists victim :: IsOldest(before, victim) && after == (before - {victim})[key := value]
    else
      after == before[key := value]
  }

  function Touched(flows: Flows, key: FlowKey, now: nat): Flows {
    if key in flows then flows[key := flows[key].(lastSeen := now)] else flows
  }

  /** `now.duration_since(lastSeen)`: zero when the entry was stamped after the clock was read. */
  function Idle(now: nat, lastSeen: nat): nat {
    if now < lastSeen then 0 else now - lastSeen
  }

  function Pruned(flows: Flows, now: nat, maxIdle: nat): Flows {
    map k | k in flows && Idle(now, flows[k].lastSeen) <= maxIdle :: flows[k]
  }

  // ---------------------------------------------------------------------------
  // The table itself
  // ---------------------------------------------------------------------------

  class FlowTable {
    const capacity: nat
    var flows: Flows

    constructor (capacity: nat)
      ensures this.capacity == capacity && flows == map[]
    {
      this.capacity := capacity;
      flows := map[];
    }

    /** The iteration order of the hash map is arbitrary; the first minimum met wins. */
    method OldestKey() returns (oldest: Option<FlowKey>)
      ensures oldest.None? <==> flows == map[]
      ensures oldest.Some? ==> IsOldest(flows, oldest.value)
    {
      oldest := None;
      var rest := flows.Keys;
      while rest != {}
        invariant rest <= flows.Keys
        invariant oldest.None? ==> rest == flows.Keys
        invariant oldest.Some? ==> oldest.value in flows.Keys - rest
        invariant oldest.Some? ==>
          forall k :: k in flows.Keys - rest ==> flows[oldest.value].lastSeen <= flows[k].lastSeen
        decreases rest
      {
        var k :| k in rest;
        if oldest.None? || flows[k].lastSeen < flows[oldest.value].lastSeen {
          oldest := Some(k);
        }
        rest := rest - {k};
      }
    }

    method Insert(key: FlowKey, value: FlowValue)
      modifies this
      ensures Inserted(old(flows), capacity, key, value, flows)
    {
      if |flows| >= capacity {
        var oldest := OldestKey();
        if oldest.Some? {
          flows := flows - {oldest.value};
        }
      }
      flows := flows[key := value];
    }

    method Get(key: FlowKey, now: nat) returns (flow: Option<FlowValue>)
      modifies this
      ensures flows == Touched(old(flows), key, now)
      ensures flow == if key in old(flows) then Some(flows[key]) else None
    {
      if key !in flows {
        return None;
      }
      flows := flows[key := flows[key].(lastSeen := now)];
      return Some(flows[key]);
    }

    method Remove(key: FlowKey) returns (flow: Option<FlowValue>)
      modifies this
      ensures flows == old(flows) - {key}
      ensures flow == if key in old(flows) then Some(old(flows)[key]) else None
    {
      flow := if key in flows then Some(flows[key]) else None;
      flows := flows - {key};
    }

    /** `now` is read before the lock is taken, so entries may carry later stamps. */
    method PruneOlderThan(now: nat, maxIdle: nat) returns (removed: nat)
      modifies this
      ensures flows == Pruned(old(flows), now, maxIdle)
      ensures removed == |old(flows)| - |flows|
    {
      var before := |flows|;
      ghost var was := flows;
      flows := map k | k in flows && Idle(now, flows[k].lastSeen) <= maxIdle :: flows[k];
      SubsetSize(flows.Keys, was.Keys);
      removed := before - |flows|;
    }
  }

  lemma {:induction false} SubsetSize<T>(s: set<T>, t: set<T>)
    requires s <= t
    ensures |s| <= |t|
  {
    if s != {} {
      var x :| x in s;
      SubsetSize(s - {x}, t - {x});
    }
  }

  // ---------------------------------------------------------------------------
  // Capacity and recency
  // ---------------------------------------------------------------------------

  function Limit(capacity: nat): nat {
    if capacity == 0 then 1 else capacity
  }

  /** The other entries of the table that were touched no earlier than `key`. */
  function Rivals(flows: Flows, key: FlowKey): set<FlowKey>
    requires key in flows
  {
    set k | k in flows && k != key && flows[key].lastSeen <= flows[k].lastSeen
  }

  lemma InsertKeepsLimit(before: Flows, capacity: nat, key: FlowKey, value: FlowValue, after: Flows)
    requires |before| <= Limit(capacity)
    requires Inserted(before, capacity, key, value, after)
    ensures |after| <= Limit(capacity)
  {
    if |before| >= capacity && before != map[] {
      var victim :| IsOldest(before, victim) && after == (before - {victim})[key := value];
      assert after.Keys == before.Keys - {victim} + {key};
      assert |before.Keys| == |before|;
    } else {
      assert after.Keys == before.Keys + {key};
      assert |after.Keys| <= |before.Keys| + 1;
    }
  }

  /** Pruning keeps exactly the entries last seen no more than `maxIdle` before `now`, as they are. */
  lemma PruneKeepsIff(flows: Flows, now: nat, maxIdle: nat, key: FlowKey)
    ensures key in Pruned(flows, now, maxIdle) <==> key in flows && now <= flows[key].lastSeen + maxIdle
    ensures key in Pruned(flows, now, maxIdle) ==> Pruned(flows, now, maxIdle)[key] == flows[key]
  {
  }

  /** The inserted entry is there; at most one other key is gone, every survivor is untouched, and the
      one that went had at least `capacity - 1` rivals. */
  lemma InsertEvictsOldest(before: Flows, capacity: nat, key: FlowKey, value: FlowValue, after: Flows, lost: FlowKey)
    requires Inserted(before, capacity, key, value, after)
    requires lost in before && lost != key && lost !in after
    ensures key in after && after[key] == value
    ensures |Rivals(before, lost)| == |before| - 1 >= capacity - 1
    ensures forall k :: k in before && k != lost && k != key ==> k in after && after[k] == before[k]
  {
    assert Rivals(before, lost) == before.Keys - {lost};
    assert |before.Keys| == |before|;
  }

  lemma InsertKeepsOthers(before: Flows, capacity: nat, key: FlowKey, value: FlowValue, after: Flows, k: FlowKey)
    requires Inserted(before, capacity, key, value, after)
    ensures key in after && after[key] == value
    ensures k in after && k != key ==> k in before && after[k] == before[k]
    ensures k in before && |Rivals(before, k)| < capacity - 1 ==> k in after
  {
    if k in before && k != key && k !in after {
      InsertEvictsOldest(before, capacity, key, value, after, k);
    }
  }

  // ---------------------------------------------------------------------------
  // When an insertion can cost another flow its entry
  // ---------------------------------------------------------------------------

  /** Whichever victim the table picks, the entry that leaves it is not that of another flow. */
  ghost predicate SparesOthers(before: Flows, capacity: nat, key: FlowKey, value: FlowValue) {
    forall after :: Inserted(before, capacity, key, value, after) ==> before.Keys <= after.Keys
  }

  lemma {:induction false} SomeOldest(flows: Flows) returns (victim: FlowKey)
    requires flows != map[]
    ensures IsOldest(flows, victim)
    decreases |flows|
  {
    var k :| k in flows;
    victim := k;
    var rest := flows - {k};
    assert forall j :: j in flows && j != k ==> j in rest && rest[j] == flows[j];
    if rest != map[] {
      assert |rest.Keys| < |flows.Keys|;
      var v := SomeOldest(rest);
      if flows[v].lastSeen < flows[k].lastSeen {
        victim := v;
      }
    }
  }

  lemma VictimIsLost(before: Flows, capacity: nat, key: FlowKey, value: FlowValue, victim: FlowKey)
    requires |before| >= capacity && IsOldest(before, victim) && victim != key
    ensures !SparesOthers(before, capacity, key, value)
  {
    var after := (before - {victim})[key := value];
    assert Inserted(before, capacity, key, value, after);
    assert victim in before.Keys && victim !in after.Keys;
  }

  /** Insertion is sure to keep every entry exactly when there is room, or when the key is already there and
      its own entry is the only oldest one. Replacing any other entry of a full table can cost another flow. */
  lemma InsertSparesOthersIff(before: Flows, capacity: nat, key: FlowKey, value: FlowValue)
    ensures SparesOthers(before, capacity, key, value) <==>
            || |before| < capacity || before == map[]
            || (key in before && forall k :: k in before && k != key ==> before[key].lastSeen < before[k].lastSeen)
  {
    if |before| >= capacity && before != map[] {
      if key in before && forall k :: k in before && k != key ==> before[key].lastSeen < before[k].lastSeen {
        forall after | Inserted(before, capacity, key, value, after) ensures before.Keys <= after.Keys {
          var victim :| IsOldest(before, victim) && after == (before - {victim})[key := value];
          assert victim == key;
        }
      } else {
        var oldest := SomeOldest(before);
        if oldest == key {
          var k :| k in before && k != key && before[k].lastSeen <= before[key].lastSeen;
          assert IsOldest(before, k);
          VictimIsLost(before, capacity, key, value, k);
        } else {
          VictimIsLost(before, capacity, key, value, oldest);
        }
      }
    }
  }

  /** Two flows in a table of two: recording the newer one again pushes the older one out, though no entry
      was needed for it. */
  lemma ReplacementCostsOther(older: FlowKey, newer: FlowKey, value: FlowValue)
    requires older != newer
    ensures var before := map[older := value.(lastSeen := 1), newer := value.(lastSeen := 2)];
            && |before| == 2
            && Inserted(before, 2, newer, value, map[newer := value])
            && !SparesOthers(before, 2, newer, value)
            && SparesOthers(before, 2, older, value)
  {
    var before := map[older := value.(lastSeen := 1), newer := value.(lastSeen := 2)];
    assert before.Keys == {older, newer};
    assert |before| == |before.Keys| == 2;
    assert IsOldest(before, older);
    assert (before - {older})[newer := value] == map[newer := value];
    VictimIsLost(before, 2, newer, value, older);
    InsertSparesOthersIff(before, 2, older, value);
  }
}
