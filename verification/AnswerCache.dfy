// src/answer_cache.c: resolved answers keyed on (domain, qtype).  A cyclic hash
// table with a bounded probe: a key is looked for in eight slots from its home.
module AnswerCache {
  import opened Prelude
  import opened ProbeTable

  const PROBE_WINDOW: nat := 8
  const MAX_DOMAIN: nat := 95
  const MAX_RECORDS: nat := 8
  const RECORD_BYTES: nat := 16

  datatype Key = Key(domain: Name, qtype: nat)

  // The stored part of an answer besides its TTL.
  datatype Payload = Payload(records: seq<seq<Byte>>, numRecords: nat, recordBytes: nat)

  type ASlots = Slots<Key, Payload>

  // The eight cyclic slots from home.
  function Window(home: nat, n: nat): (order: seq<nat>)
    requires n > 0
    ensures |order| == PROBE_WINDOW
  {
    seq(PROBE_WINDOW, i requires 0 <= i < PROBE_WINDOW => (home % n + i) % n)
  }

  // One of the eight slots from home on, around the end of the table.
  predicate InWindow(home: nat, n: nat, p: nat)
    requires n > 0
  {
    p < n && (p + n - home % n) % n < 8
  }

  lemma WindowMeans(home: nat, n: nat, p: nat)
    requires n >= PROBE_WINDOW
    ensures p in Window(home, n) <==> InWindow(home, n, p)
  {
    var start := home % n;
    if p in Window(home, n) {
      var i :| 0 <= i < PROBE_WINDOW && Window(home, n)[i] == p;
      StepInRange(start, i, n);
      assert (p + n - start) % n == i by { Rest(p + n - start, i, n); }
    }
    if InWindow(home, n, p) {
      var i := (p + n - start) % n;
      StepInRange(start, i, n);
      if p >= start { Rest(p + n - start, p - start, n); } else { Rest(p + n - start, p + n - start, n); }
      assert Window(home, n)[i] == p;
    }
  }

  lemma Rest(x: nat, r: nat, n: nat)
    requires r < n && (x == r || x == r + n)
    ensures x % n == r
  {
    if x == r + n { assert x / n == 1; }
  }

  function Cyclic(hash: Key -> nat, n: nat): Layout<Key>
    requires n > 0
  {
    Layout(hash, (k: Key) => Window(hash(k), n))
  }

  lemma StepInRange(start: nat, i: nat, n: nat)
    requires start < n && i < PROBE_WINDOW <= n
    ensures (start + i) % n == if start + i < n then start + i else start + i - n
  {
  }

  lemma WindowOk(home: nat, n: nat)
    requires n >= PROBE_WINDOW
    ensures OrderOk(Window(home, n), n)
  {
    var order := Window(home, n);
    forall i, j | 0 <= i < j < |order| ensures order[i] != order[j] {
      StepInRange(home % n, i, n);
      StepInRange(home % n, j, n);
    }
  }

  lemma CyclicOk(hash: Key -> nat, n: nat)
    requires n >= PROBE_WINDOW
    ensures forall k: Key :: OrderOk(Cyclic(hash, n).order(k), n)
    ensures forall k: Key :: OrderOk(Window(hash(k), n), n)
  {
    forall k: Key ensures OrderOk(Window(hash(k), n), n) { WindowOk(hash(k), n); }
  }

  // start = hash & (capacity - 1), idx = (start + step) & (capacity - 1): for a
  // power of two these are remainders.
  method ProbeIndex(home: nat, step: nat, n: nat) returns (idx: nat)
    requires n >= PROBE_WINDOW && step < PROBE_WINDOW
    ensures idx < n && idx == Window(home, n)[step]
  {
    var start := home % n;
    idx := (start + step) % n;
  }

  // What answer_cache_insert accepts.
  predicate Accepts(domain: Name, p: Payload, ttl: nat) {
    && ttl != 0
    && |domain| <= MAX_DOMAIN
    && 0 < p.numRecords <= MAX_RECORDS
    && 0 < p.recordBytes <= RECORD_BYTES
  }

  lemma InTimeHits(s: ASlots, hash: Key -> nat, k: Key, now: U64)
    requires |s| >= PROBE_WINDOW && Inv(s, Cyclic(hash, |s|))
    ensures OrderOk(Window(hash(k), |s|), |s|)
    ensures InRange(s) ==>
      var r := Looked(s, Window(hash(k), |s|), k, hash(k), now, true).1;
      (r.Some? <==> InTime(s, k, now)) && (r.Some? ==> Stores(s, k, r.value.0, r.value.1))
  {
    WindowOk(hash(k), |s|);
    if InRange(s) { HitIffInTime(s, Cyclic(hash, |s|), k, now, true); }
  }

  class AnswerCache {
    const hash: Key -> nat
    const slots: array<Slot<Key, Payload>>
    var count: int
    var hits: nat
    var misses: nat
    var evictions: nat
    var inserts: nat

    // How often a lookup has dropped a slot that another one had dropped before
    // it, since the last clear: the count is too low by that much.
    ghost var deficit: nat

    ghost predicate Valid()
      reads this, slots
    {
      && slots.Length >= PROBE_WINDOW
      && Inv(slots[..], Probing())
      && count + deficit == NumUsed(slots[..])
    }

    ghost function Probing(): Layout<Key>
      requires slots.Length > 0
    {
      Cyclic(hash, slots.Length)
    }

    // answer_cache_init past its argument check and allocations.
    constructor (hash: Key -> nat, capacity: nat)
      requires IsPowerOf2(capacity) && capacity >= 64
      ensures Valid() && fresh(slots) && slots.Length == capacity && this.hash == hash
      ensures count == 0 && deficit == 0 && forall p :: 0 <= p < slots.Length ==> slots[p] == Empty
    {
      this.hash := hash;
      this.slots := new Slot<Key, Payload>[capacity](_ => Empty);
      count, hits, misses, evictions, inserts, deficit := 0, 0, 0, 0, 0, 0;
      new;
      CyclicOk(hash, capacity);
      NoneUsed(slots[..]);
    }

    // The probe loop of lookup and invalidate: the first valid slot of the window
    // that holds the key.
    method Probe(k: Key, h: nat) returns (at: int)
      requires slots.Length >= PROBE_WINDOW
      ensures OrderOk(Window(h, slots.Length), slots.Length)
      ensures var i := Find(slots[..], Window(h, slots.Length), k, h, 0);
        at == if i < PROBE_WINDOW then Window(h, slots.Length)[i] else NO_SLOT
    {
      hide Window;
      ghost var s, order := slots[..], Window(h, slots.Length);
      WindowOk(h, slots.Length);
      for step := 0 to PROBE_WINDOW
        invariant Find(s, order, k, h, 0) == Find(s, order, k, h, step)
      {
        var idx := ProbeIndex(h, step, slots.Length);
        var entry := slots[idx];
        if entry.Used? && entry.hash == h && entry.key == k {
          return idx;
        }
      }
      return NO_SLOT;
    }

    // answer_cache_lookup.
    method Lookup(domain: Name, qtype: nat, now: U64) returns (r: Option<(Payload, nat)>)
      requires Valid()
      modifies this`count, this`hits, this`misses, slots
      ensures Valid()
      ensures |domain| > MAX_DOMAIN ==> r == None && slots[..] == old(slots[..])
      ensures var k := Key(domain, qtype);
        |domain| <= MAX_DOMAIN ==>
        && OrderOk(Window(hash(k), slots.Length), slots.Length)
        && (slots[..], r) == Looked(old(slots[..]), Window(hash(k), slots.Length), k, hash(k), now, true)
      ensures InRange(old(slots[..])) && |domain| <= MAX_DOMAIN ==>
        && (r.Some? <==> InTime(old(slots[..]), Key(domain, qtype), now))
        && (r.Some? ==> Stores(old(slots[..]), Key(domain, qtype), r.value.0, r.value.1))
      ensures hits == old(hits) + (if r.Some? then 1 else 0)
      ensures misses == old(misses) + (if r.None? && |domain| <= MAX_DOMAIN then 1 else 0)
    {
      hide Window;
      if |domain| > MAX_DOMAIN {
        return None;
      }
      var k := Key(domain, qtype);
      InTimeHits(slots[..], hash, k, now);
      hide InTime, Stores;
      var at := Probe(k, hash(k));
      if at == NO_SLOT {
        misses := misses + 1;
        return None;
      }
      var entry := slots[at];
      ghost var s := slots[..];
      if Expired(entry, now) {
        Wipe(at);
        WipeKeepsInv(s, s[at := Empty], Probing());
        misses := misses + 1;
        return None;
      }
      var ts := entry.stamp;
      if ts < now {
        slots[at] := entry.(stamp := now);
      }
      hits := hits + 1;
      assert slots[..] == s[at := entry.(stamp := if ts < now then now else ts)];
      TouchKeeps(s, Probing(), at, now);
      return Some((entry.value, entry.ttl));
    }

    // A lookup that found a slot valid and expired, and has lost the race to drop
    // it: it clears the flag once more and takes the slot off the count again.
    method DropAgain(i: nat)
      requires Valid() && i < slots.Length && slots[i].Empty?
      modifies this`count, this`misses, this`deficit, slots
      ensures Valid() && slots[..] == old(slots[..])
      ensures count == old(count) - 1 && deficit == old(deficit) + 1 && misses == old(misses) + 1
    {
      slots[i] := Empty;
      count, misses, deficit := count - 1, misses + 1, deficit + 1;
      assert slots[..] == old(slots[..]);
    }

    // Dropping one entry: the count goes down and the slot is invalid.
    method Wipe(i: nat)
      requires i < slots.Length && slots[i].Used?
      requires count + deficit == NumUsed(slots[..])
      modifies this`count, slots
      ensures slots[..] == old(slots[..])[i := Empty]
      ensures count == old(count) - 1 && count + deficit == NumUsed(slots[..])
    {
      NumUsedUpdate(slots[..], i, Empty);
      count := count - 1;
      slots[i] := Empty;
      assert slots[..] == old(slots[..])[i := Empty];
    }

    // The loop of answer_cache_insert: wipes the expired slots of the window up
    // to a live entry for the key, if there is one; otherwise the whole window,
    // remembering the first free and the least recently touched slot.
    method Sweep(k: Key, h: nat, now: U64) returns (live: int, targetIdx: int, oldestIdx: nat)
      requires slots.Length >= PROBE_WINDOW && count + deficit == NumUsed(slots[..])
      modifies this`count, slots
      ensures count + deficit == NumUsed(slots[..])
      ensures OrderOk(Window(h, slots.Length), slots.Length)
      ensures var order := Window(h, slots.Length);
        var m := FindLive(old(slots[..]), order, k, h, now, 0);
        && slots[..] == Purge(old(slots[..]), order, m, now)
        && (if m < PROBE_WINDOW then live == order[m]
            else live == NO_SLOT && exists time :: Scanned(old(slots[..]), order, now, m, targetIdx, oldestIdx, time))
    {
      var n := slots.Length;
      hide Window, PastTtl;
      ghost var s, order := slots[..], Window(h, n);
      WindowOk(h, n);
      PurgeNone(s, order, now);
      ScanStart(s, order, now);
      var oldestTime: U64;
      oldestIdx := ProbeIndex(h, 0, n);
      targetIdx, oldestTime := NO_SLOT, MAX_STAMP;
      for step := 0 to PROBE_WINDOW
        invariant slots[..] == Purge(s, order, step, now)
        invariant FindLive(s, order, k, h, now, 0) == FindLive(s, order, k, h, now, step)
        invariant Scanned(s, order, now, step, targetIdx, oldestIdx, oldestTime)
        invariant count + deficit == NumUsed(slots[..])
      {
        var idx := ProbeIndex(h, step, n);
        var entry := slots[idx];
        PurgeNext(s, order, step, now);
        assert entry == s[idx];
        if entry.Used? && !Expired(entry, now) && entry.hash == h && entry.key == k {
          return idx, targetIdx, oldestIdx;
        }
        if entry.Empty? {
          ScanDead(s, order, now, step, targetIdx, oldestIdx, oldestTime);
          if targetIdx == NO_SLOT { targetIdx := idx; }
        } else if Expired(entry, now) {
          ScanDead(s, order, now, step, targetIdx, oldestIdx, oldestTime);
          if targetIdx == NO_SLOT { targetIdx := idx; }
          Wipe(idx);
        } else {
          ScanLive(s, order, now, step, targetIdx, oldestIdx, oldestTime);
          if entry.stamp < oldestTime {
            oldestTime, oldestIdx := entry.stamp, idx;
          }
        }
      }
      live := NO_SLOT;
    }

    // The end of the insert: refresh the live entry, fill the free slot, or evict.
    method Store(live: int, free: int, oldest: nat, entry: Slot<Key, Payload>, ghost s: Slots<Key, Payload>, ghost order: seq<nat>, now: U64)
      requires entry.Used? && |s| == slots.Length && OrderOk(order, |s|)
      requires count + deficit == NumUsed(slots[..])
      requires var m := FindLive(s, order, entry.key, entry.hash, now, 0);
        && slots[..] == Purge(s, order, m, now)
        && (if m < |order| then live == order[m]
            else live == NO_SLOT && exists time :: Scanned(s, order, now, m, free, oldest, time))
      modifies this`count, this`evictions, this`inserts, slots
      ensures count + deficit == NumUsed(slots[..])
      ensures var (t, out) := Inserted(s, order, entry, now);
        && slots[..] == t
        && evictions == old(evictions) + (if out.Evicted? then 1 else 0)
        && inserts == old(inserts) + (if out.Refreshed? then 0 else 1)
    {
      ghost var u := slots[..];
      var target;
      if live != NO_SLOT {
        target := live;
      } else {
        if free != NO_SLOT {
          target := free;
          count := count + 1;
        } else {
          target := oldest;
          evictions := evictions + 1;
        }
        inserts := inserts + 1;
      }
      NumUsedUpdate(u, target, entry);
      slots[target] := entry;
      assert slots[..] == u[target := entry];
    }

    // answer_cache_insert.
    method Insert(domain: Name, qtype: nat, p: Payload, ttl: nat, now: U64) returns (ok: bool)
      requires Valid()
      modifies this`count, this`evictions, this`inserts, slots
      ensures Valid()
      ensures ok <==> ttl != 0 && |domain| <= 95 && 0 < p.numRecords <= 8 && 0 < p.recordBytes <= 16
      ensures !ok ==> slots[..] == old(slots[..]) && evictions == old(evictions) && inserts == old(inserts)
      ensures ok ==>
        var k := Key(domain, qtype);
        && OrderOk(Window(hash(k), slots.Length), slots.Length)
        && var (t, out) := Inserted(old(slots[..]), Window(hash(k), slots.Length), Used(k, hash(k), now, ttl, p), now);
          && slots[..] == t
          && evictions == old(evictions) + (if out.Evicted? then 1 else 0)
          && inserts == old(inserts) + (if out.Refreshed? then 0 else 1)
    {
      if !Accepts(domain, p, ttl) {
        return false;
      }
      var k := Key(domain, qtype);
      var h := hash(k);
      hide Window;
      ghost var s, order := slots[..], Window(h, slots.Length);
      WindowOk(h, slots.Length);
      var entry := Used(k, h, now, ttl, p);
      InsertKeepsInv(s, Probing(), entry, now);
      var live, targetIdx, oldestIdx := Sweep(k, h, now);
      Store(live, targetIdx, oldestIdx, entry, s, order, now);
      ok := true;
    }

    // One qtype's round of answer_cache_invalidate.
    method InvalidateKey(k: Key) returns (removed: bool)
      requires Valid()
      modifies this`count, slots
      ensures Valid()
      ensures OrderOk(Window(hash(k), slots.Length), slots.Length)
      ensures slots[..] == Invalidated(old(slots[..]), Window(hash(k), slots.Length), k, hash(k))
      ensures removed <==> Present(old(slots[..]), k)
    {
      hide Window;
      ghost var s := slots[..];
      ProbeIsScan(s, Probing(), k);
      var at := Probe(k, hash(k));
      if at != NO_SLOT {
        Wipe(at);
        WipeKeepsInv(s, s[at := Empty], Probing());
      }
      removed := at != NO_SLOT;
    }

    // answer_cache_invalidate: the A and the AAAA entry of a domain.
    method Invalidate(domain: Name) returns (removedAny: bool)
      requires Valid()
      modifies this`count, slots
      ensures Valid()
      ensures |domain| <= MAX_DOMAIN ==> slots[..] == BothInvalidated(old(slots[..]), Probing(), domain)
      ensures |domain| > MAX_DOMAIN ==> slots[..] == old(slots[..])
      ensures removedAny <==> |domain| <= MAX_DOMAIN && (Present(old(slots[..]), Key(domain, 1)) || Present(old(slots[..]), Key(domain, 28)))
    {
      if |domain| > MAX_DOMAIN {
        return false;
      }
      ghost var s := slots[..];
      CyclicOk(hash, slots.Length);
      var a := InvalidateKey(Key(domain, 1));
      InvalidatedKeepsOthers(s, Probing(), Key(domain, 1), Key(domain, 28));
      var b := InvalidateKey(Key(domain, 28));
      removedAny := a || b;
    }

    // answer_cache_clear.
    method Clear()
      requires Valid()
      modifies this`count, this`deficit, slots
      ensures Valid()
      ensures slots[..] == Cleared(old(slots[..])) && count == 0 && deficit == 0
    {
      ghost var s := slots[..];
      forall i | 0 <= i < slots.Length {
        slots[i] := Empty;
      }
      count, deficit := 0, 0;
      assert slots[..] == Cleared(s);
      NoneUsed(slots[..]);
      WipeKeepsInv(s, slots[..], Probing());
    }

    // answer_cache_prune_expired.
    method PruneExpired(now: U64) returns (pruned: nat)
      requires Valid()
      modifies this`count, slots
      ensures Valid()
      ensures slots[..] == Pruned(old(slots[..]), now)
      ensures InRange(old(slots[..])) ==>
        forall p :: 0 <= p < slots.Length ==>
          slots[p] == if old(slots[p]).Used? && Deadline(old(slots[p])) < now then Empty else old(slots[p])
      ensures pruned == old(count) - count
    {
      ghost var s, order := slots[..], Whole(slots.Length);
      PurgeWhole(s, now);
      PurgeNone(s, order, now);
      PrunedInRange(s, now);
      pruned := 0;
      for i := 0 to slots.Length
        invariant slots[..] == Purge(s, order, i, now)
        invariant count + deficit == NumUsed(slots[..]) && pruned == old(count) - count
      {
        PurgeNext(s, order, i, now);
        if slots[i].Used? && Expired(slots[i], now) {
          Wipe(i);
          pruned := pruned + 1;
        }
      }
      WipeKeepsInv(s, Pruned(s, now), Probing());
    }
  }

  ghost function BothInvalidated(s: ASlots, lay: Layout<Key>, domain: Name): ASlots
    requires forall k: Key :: OrderOk(lay.order(k), |s|)
  {
    var a, b := Key(domain, 1), Key(domain, 28);
    Invalidated(Invalidated(s, lay.order(a), a, lay.hash(a)), lay.order(b), b, lay.hash(b))
  }

  // Invalidating a key leaves every other key where it is.
  lemma InvalidatedKeepsOthers(s: ASlots, lay: Layout<Key>, k: Key, other: Key)
    requires Inv(s, lay) && other != k
    ensures OrderOk(lay.order(k), |s|)
    ensures Present(Invalidated(s, lay.order(k), k, lay.hash(k)), other) <==> Present(s, other)
  {
    ProbeIsScan(s, lay, k);
    var t := Invalidated(s, lay.order(k), k, lay.hash(k));
    if Present(s, other) {
      var p :| 0 <= p < |s| && s[p].Used? && s[p].key == other;
      assert t[p] == s[p];
    }
  }

  // After answer_cache_invalidate(d) no slot of the whole table holds an A or an
  // AAAA answer for d, although only two windows of eight slots were examined.
  lemma NoAnswerAfterInvalidate(s: ASlots, hash: Key -> nat, domain: Name)
    requires |s| >= PROBE_WINDOW && Inv(s, Cyclic(hash, |s|))
    ensures var t := BothInvalidated(s, Cyclic(hash, |s|), domain);
      && !Present(t, Key(domain, 1)) && !Present(t, Key(domain, 28))
      && forall k: Key :: k.domain != domain || (k.qtype != 1 && k.qtype != 28) ==> (Present(t, k) <==> Present(s, k))
  {
    var lay := Cyclic(hash, |s|);
    var a, b := Key(domain, 1), Key(domain, 28);
    ProbeIsScan(s, lay, a);
    var m := Invalidated(s, lay.order(a), a, lay.hash(a));
    WipeKeepsInv(s, m, lay);
    InvalidatedIsGone(s, lay, a);
    InvalidatedIsGone(m, lay, b);
    InvalidatedKeepsOthers(m, lay, b, a);
    forall k: Key | k.domain != domain || (k.qtype != 1 && k.qtype != 28)
      ensures Present(BothInvalidated(s, lay, domain), k) <==> Present(s, k)
    {
      InvalidatedKeepsOthers(s, lay, a, k);
      InvalidatedKeepsOthers(m, lay, b, k);
    }
  }

  // In every table reachable from the empty one, a key is found in its eight
  // slots exactly when a scan of all slots would find it.
  lemma BoundedProbeIsFullScan(s: ASlots, hash: Key -> nat, ops: seq<Op<Key, Payload>>, k: Key)
    requires |s| >= PROBE_WINDOW && forall p :: 0 <= p < |s| ==> s[p].Empty?
    requires forall i :: 0 <= i < |ops| ==> OpOk(ops[i])
    ensures forall j: Key :: OrderOk(Window(hash(j), |s|), |s|)
    ensures var t := Run(s, ops, Cyclic(hash, |s|), true);
      && (Find(t, Window(hash(k), |s|), k, hash(k), 0) < 8 <==> Present(t, k))
      && (forall p :: 0 <= p < |t| && t[p].Used? ==>
            t[p].hash == hash(t[p].key) && InWindow(hash(t[p].key), |t|, p))
      && Unique(t)
  {
    hide Window;
    var lay := Cyclic(hash, |s|);
    CyclicOk(hash, |s|);
    RunKeeps(s, map[], ops, lay, true);
    var t := Run(s, ops, lay, true);
    ProbeIsScan(t, lay, k);
    forall p | 0 <= p < |t| && t[p].Used?
      ensures t[p].hash == hash(t[p].key) && InWindow(hash(t[p].key), |t|, p)
    {
      assert Placed(t, lay, p);
      WindowMeans(hash(t[p].key), |t|, p);
    }
  }
}
