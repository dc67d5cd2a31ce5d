// src/dns_cache.c: the verdict cache.  A fixed array of slots, scanned in full
// by every operation.
module VerdictCache {
  import opened Prelude
  import opened ProbeTable

  datatype Action = NoAction | Block | Allow | Redirect

  const MAX_DOMAIN: nat := 253

  type VSlots = Slots<Name, Action>

  function Linear(hash: Name -> nat, n: nat): Layout<Name> {
    Layout(hash, (k: Name) => Whole(n))
  }

  lemma WholeOk(hash: Name -> nat, n: nat)
    requires n > 0
    ensures OrderOk(Whole(n), n)
    ensures forall k: Name :: OrderOk(Linear(hash, n).order(k), n)
  {
  }

  lemma InTimeHits(s: VSlots, hash: Name -> nat, domain: Name, now: U64)
    requires |s| > 0 && Inv(s, Linear(hash, |s|))
    ensures OrderOk(Whole(|s|), |s|)
    ensures InRange(s) ==>
      var r := Looked(s, Whole(|s|), domain, hash(domain), now, false).1;
      (r.Some? <==> InTime(s, domain, now)) && (r.Some? ==> Stores(s, domain, r.value.0, r.value.1))
  {
    WholeOk(hash, |s|);
    if InRange(s) { HitIffInTime(s, Linear(hash, |s|), domain, now, false); }
  }

  class VerdictCache {
    const hash: Name -> nat
    const slots: array<Slot<Name, Action>>
    var count: int
    var hits: nat
    var misses: nat
    var evictions: nat
    var inserts: nat

    ghost predicate Valid()
      reads this, slots
    {
      && slots.Length > 0
      && Inv(slots[..], Probing())
      && count == NumUsed(slots[..])
    }

    ghost function Probing(): Layout<Name> {
      Linear(hash, slots.Length)
    }

    // dns_cache_init past its argument check and allocations.
    constructor (hash: Name -> nat, capacity: nat)
      requires IsPowerOf2(capacity) && capacity >= 64
      ensures Valid() && fresh(slots) && slots.Length == capacity && this.hash == hash
      ensures forall p :: 0 <= p < slots.Length ==> slots[p] == Empty
    {
      this.hash := hash;
      this.slots := new Slot<Name, Action>[capacity](_ => Empty);
      count, hits, misses, evictions, inserts := 0, 0, 0, 0, 0;
      new;
      WholeOk(hash, capacity);
      NoneUsed(slots[..]);
    }

    // dns_cache_lookup.
    method Lookup(domain: Name, now: U64) returns (r: Option<(Action, nat)>)
      requires Valid()
      modifies this`hits, this`misses, slots
      ensures Valid()
      ensures (slots[..], r) ==
        if |domain| > MAX_DOMAIN then (old(slots[..]), None)
        else Looked(old(slots[..]), Whole(slots.Length), domain, hash(domain), now, false)
      ensures InRange(old(slots[..])) && |domain| <= MAX_DOMAIN ==>
        && (r.Some? <==> InTime(old(slots[..]), domain, now))
        && (r.Some? ==> Stores(old(slots[..]), domain, r.value.0, r.value.1))
      ensures hits == old(hits) + (if r.Some? then 1 else 0)
      ensures misses == old(misses) + (if r.None? && |domain| <= MAX_DOMAIN then 1 else 0)
    {
      if |domain| > MAX_DOMAIN {
        return None;
      }
      ghost var s, order := slots[..], Whole(slots.Length);
      WholeOk(hash, slots.Length);
      InTimeHits(s, hash, domain, now);
      hide InTime, Stores;
      var h := hash(domain);
      for i := 0 to slots.Length
        invariant slots[..] == s
        invariant Find(s, order, domain, h, 0) == Find(s, order, domain, h, i)
      {
        var entry := slots[i];
        if entry.Used? && entry.hash == h && entry.key == domain {
          if Expired(entry, now) {
            misses := misses + 1;
            return None;
          }
          var ts := entry.stamp;
          if ts < now {
            slots[i] := entry.(stamp := now);
          }
          hits := hits + 1;
          assert slots[..] == s[i := entry.(stamp := if ts < now then now else ts)];
          TouchKeeps(s, Probing(), i, now);
          return Some((entry.value, entry.ttl));
        }
      }
      misses := misses + 1;
      return None;
    }

    // Dropping one entry: the count goes down and the slot is zeroed.
    method Wipe(i: nat)
      requires i < slots.Length && slots[i].Used?
      requires count == NumUsed(slots[..])
      modifies this`count, slots
      ensures slots[..] == old(slots[..])[i := Empty]
      ensures count == old(count) - 1 == NumUsed(slots[..])
    {
      NumUsedUpdate(slots[..], i, Empty);
      count := count - 1;
      slots[i] := Empty;
      assert slots[..] == old(slots[..])[i := Empty];
    }

    // The loop of dns_cache_insert: wipes expired slots up to a live entry for
    // the domain, if there is one; otherwise the whole table, remembering the
    // first free and the least recently touched slot.
    method Sweep(domain: Name, h: nat, now: U64) returns (live: int, emptyIdx: int, lruIdx: nat)
      requires slots.Length > 0 && count == NumUsed(slots[..])
      modifies this`count, slots
      ensures count == NumUsed(slots[..])
      ensures OrderOk(Whole(slots.Length), slots.Length)
      ensures var order := Whole(slots.Length);
        var m := FindLive(old(slots[..]), order, domain, h, now, 0);
        && slots[..] == Purge(old(slots[..]), order, m, now)
        && (if m < slots.Length then live == m
            else live == NO_SLOT && exists time :: Scanned(old(slots[..]), order, now, m, emptyIdx, lruIdx, time))
    {
      hide Whole, Scanned, NumUsed, PastTtl;
      ghost var s, order := slots[..], Whole(slots.Length);
      WholeOk(hash, slots.Length);
      PurgeNone(s, order, now);
      ScanStart(s, order, now);
      var oldestTime: U64;
      emptyIdx, lruIdx, oldestTime := NO_SLOT, 0, MAX_STAMP;
      for i := 0 to slots.Length
        invariant slots[..] == Purge(s, order, i, now)
        invariant FindLive(s, order, domain, h, now, 0) == FindLive(s, order, domain, h, now, i)
        invariant Scanned(s, order, now, i, emptyIdx, lruIdx, oldestTime)
        invariant count == NumUsed(slots[..])
      {
        var entry := slots[i];
        PurgeNext(s, order, i, now);
        assert entry == s[i];
        if entry.Used? && !Expired(entry, now) && entry.hash == h && entry.key == domain {
          return i, emptyIdx, lruIdx;
        }
        if entry.Empty? {
          ScanDead(s, order, now, i, emptyIdx, lruIdx, oldestTime);
          if emptyIdx == NO_SLOT { emptyIdx := i; }
        } else if Expired(entry, now) {
          ScanDead(s, order, now, i, emptyIdx, lruIdx, oldestTime);
          if emptyIdx == NO_SLOT { emptyIdx := i; }
          Wipe(i);
        } else {
          ScanLive(s, order, now, i, emptyIdx, lruIdx, oldestTime);
          if entry.stamp < oldestTime {
            oldestTime, lruIdx := entry.stamp, i;
          }
        }
      }
      live := NO_SLOT;
    }

    // The end of the insert: refresh the live entry, fill the free slot, or evict.
    method Store(live: int, free: int, oldest: nat, entry: Slot<Name, Action>, ghost s: Slots<Name, Action>, ghost order: seq<nat>, now: U64)
      requires entry.Used? && |s| == slots.Length && OrderOk(order, |s|)
      requires count == NumUsed(slots[..])
      requires var m := FindLive(s, order, entry.key, entry.hash, now, 0);
        && slots[..] == Purge(s, order, m, now)
        && (if m < |order| then live == order[m]
            else live == NO_SLOT && exists time :: Scanned(s, order, now, m, free, oldest, time))
      modifies this`count, this`evictions, this`inserts, slots
      ensures count == NumUsed(slots[..])
      ensures var (t, out) := Inserted(s, order, entry, now);
        && slots[..] == t
        && evictions == old(evictions) + (if out.Evicted? then 1 else 0)
        && inserts == old(inserts) + (if out.Refreshed? then 0 else 1)
    {
      ghost var u := slots[..];
      var target;
      if live != NO_SLOT {
        target := live;
      } else {
        if free != NO_SLOT {
          target := free;
          count := count + 1;
        } else {
          target := oldest;
          evictions := evictions + 1;
        }
        inserts := inserts + 1;
      }
      NumUsedUpdate(u, target, entry);
      slots[target] := entry;
      assert slots[..] == u[target := entry];
    }

    // dns_cache_insert.
    method Insert(domain: Name, action: Action, ttl: nat, now: U64) returns (ok: bool)
      requires Valid()
      modifies this`count, this`evictions, this`inserts, slots
      ensures Valid()
      ensures ok <==> ttl != 0 && |domain| <= MAX_DOMAIN
      ensures !ok ==> slots[..] == old(slots[..]) && evictions == old(evictions) && inserts == old(inserts)
      ensures ok ==>
        var (t, out) := Inserted(old(slots[..]), Whole(slots.Length), Used(domain, hash(domain), now, ttl, action), now);
        && slots[..] == t
        && evictions == old(evictions) + (if out.Evicted? then 1 else 0)
        && inserts == old(inserts) + (if out.Refreshed? then 0 else 1)
    {
      if ttl == 0 || |domain| > MAX_DOMAIN {
        return false;
      }
      ghost var s, order := slots[..], Whole(slots.Length);
      WholeOk(hash, slots.Length);
      var h := hash(domain);
      var entry := Used(domain, h, now, ttl, action);
      InsertKeepsInv(s, Probing(), entry, now);
      var live, emptyIdx, lruIdx := Sweep(domain, h, now);
      Store(live, emptyIdx, lruIdx, entry, s, order, now);
      ok := true;
    }

    // dns_cache_invalidate.
    method Invalidate(domain: Name) returns (ok: bool)
      requires Valid()
      modifies this`count, slots
      ensures Valid()
      ensures slots[..] == if |domain| > MAX_DOMAIN then old(slots[..])
        else Invalidated(old(slots[..]), Whole(slots.Length), domain, hash(domain))
      ensures ok <==> |domain| <= MAX_DOMAIN && Present(old(slots[..]), domain)
    {
      if |domain| > MAX_DOMAIN {
        return false;
      }
      ghost var s, order := slots[..], Whole(slots.Length);
      var h := hash(domain);
      ProbeIsScan(s, Probing(), domain);
      for i := 0 to slots.Length
        invariant slots[..] == s && count == NumUsed(s)
        invariant Find(s, order, domain, h, 0) == Find(s, order, domain, h, i)
      {
        var entry := slots[i];
        if entry.Used? && entry.hash == h && entry.key == domain {
          Wipe(i);
          WipeKeepsInv(s, s[i := Empty], Probing());
          return true;
        }
      }
      return false;
    }

    // dns_cache_clear.
    method Clear()
      requires Valid()
      modifies this`count, slots
      ensures Valid()
      ensures slots[..] == Cleared(old(slots[..])) && count == 0
    {
      ghost var s := slots[..];
      forall i | 0 <= i < slots.Length {
        slots[i] := Empty;
      }
      count := 0;
      assert slots[..] == Cleared(s);
      NoneUsed(slots[..]);
      WipeKeepsInv(s, slots[..], Probing());
    }

    // dns_cache_prune_expired.
    method PruneExpired(now: U64) returns (pruned: nat)
      requires Valid()
      modifies this`count, slots
      ensures Valid()
      ensures slots[..] == Pruned(old(slots[..]), now)
      ensures InRange(old(slots[..])) ==>
        forall p :: 0 <= p < slots.Length ==>
          slots[p] == if old(slots[p]).Used? && Deadline(old(slots[p])) < now then Empty else old(slots[p])
      ensures pruned == old(count) - count
    {
      ghost var s, order := slots[..], Whole(slots.Length);
      WholeOk(hash, slots.Length);
      PurgeNone(s, order, now);
      PrunedInRange(s, now);
      pruned := 0;
      for i := 0 to slots.Length
        invariant slots[..] == Purge(s, order, i, now)
        invariant count == NumUsed(slots[..]) && pruned == old(count) - count
      {
        PurgeNext(s, order, i, now);
        if slots[i].Used? && Expired(slots[i], now) {
          Wipe(i);
          pruned := pruned + 1;
        }
      }
      PurgeWhole(s, now);
      WipeKeepsInv(s, Pruned(s, now), Probing());
    }
  }
}
