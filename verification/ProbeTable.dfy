// The discipline both caches share: a fixed array of slots, and for every key
// the order in which its slots are examined.  dns_cache examines the whole
// array, answer_cache eight cyclic slots from the key's hash.  The functions
// here say what one operation does to the slots; the classes in VerdictCache
// and AnswerCache do it with loops.
module ProbeTable {
  import opened Prelude

  type U64 = x: int | 0 <= x < 0x1_0000_0000_0000_0000

  const WRAP: int := 0x1_0000_0000_0000_0000
  const NS: int := 1_000_000_000

  // A slot whose valid flag is 0 is Empty: its other bytes are never read.
  datatype Slot<K, V> = Empty | Used(key: K, hash: nat, stamp: U64, ttl: nat, value: V)

  // 64-bit arithmetic, wrapping where the C code's does.
  predicate PastTtl(stamp: U64, ttl: nat, now: U64) {
    (stamp + ttl * NS) % WRAP < now
  }

  predicate Expired<K, V>(s: Slot<K, V>, now: U64)
    requires s.Used?
  {
    PastTtl(s.stamp, s.ttl, now)
  }

  type Slots<K, V> = seq<Slot<K, V>>

  // Where a key lives: its hash, and the slots a probe for it visits.
  datatype Layout<!K> = Layout(hash: K -> nat, order: K -> seq<nat>)

  ghost predicate OrderOk(order: seq<nat>, n: nat) {
    && order != []
    && (forall i :: 0 <= i < |order| ==> order[i] < n)
    && (forall i, j :: 0 <= i < j < |order| ==> order[i] != order[j])
  }

  predicate Holds<K(==), V>(s: Slot<K, V>, k: K, hash: nat) {
    s.Used? && s.hash == hash && s.key == k
  }

  // A used slot carries its key's own hash, lies on its key's probe order and
  // was not stored with TTL 0.
  ghost predicate Placed<K(!new), V>(slots: Slots<K, V>, lay: Layout<K>, p: nat)
    requires p < |slots|
  {
    slots[p].Used? ==>
      && slots[p].hash == lay.hash(slots[p].key)
      && p in lay.order(slots[p].key)
      && slots[p].ttl > 0
  }

  ghost predicate Unique<K, V>(slots: Slots<K, V>) {
    forall p, q :: 0 <= p < |slots| && 0 <= q < |slots| && slots[p].Used? && slots[q].Used? && slots[p].key == slots[q].key
      ==> p == q
  }

  // The invariant of a cache.
  ghost predicate Inv<K(!new), V>(slots: Slots<K, V>, lay: Layout<K>) {
    && (forall k: K :: OrderOk(lay.order(k), |slots|))
    && (forall p :: 0 <= p < |slots| ==> Placed(slots, lay, p))
    && Unique(slots)
  }

  // ------------------------------------------------------------------
  // Searching
  // ------------------------------------------------------------------

  // The first i such that slot order[i] holds k; |order| if none does.
  function Find<K(==), V>(slots: Slots<K, V>, order: seq<nat>, k: K, hash: nat, i: nat): (r: nat)
    requires i <= |order| && forall j :: 0 <= j < |order| ==> order[j] < |slots|
    ensures i <= r <= |order|
    ensures r < |order| ==> Holds(slots[order[r]], k, hash)
    ensures forall j :: i <= j < r ==> !Holds(slots[order[j]], k, hash)
    decreases |order| - i
  {
    if i == |order| || Holds(slots[order[i]], k, hash) then i
    else Find(slots, order, k, hash, i + 1)
  }

  // A full scan of the table, for comparison.
  ghost predicate Present<K, V>(slots: Slots<K, V>, k: K) {
    exists p :: 0 <= p < |slots| && slots[p].Used? && slots[p].key == k
  }

  // Probing a key's own slots finds exactly what scanning every slot would.
  lemma ProbeIsScan<K(!new), V>(slots: Slots<K, V>, lay: Layout<K>, k: K)
    requires Inv(slots, lay)
    ensures OrderOk(lay.order(k), |slots|)
    ensures Find(slots, lay.order(k), k, lay.hash(k), 0) < |lay.order(k)| <==> Present(slots, k)
    ensures forall p :: 0 <= p < |slots| && slots[p].Used? && slots[p].key == k ==>
      var i := Find(slots, lay.order(k), k, lay.hash(k), 0);
      i < |lay.order(k)| && lay.order(k)[i] == p
  {
    var order := lay.order(k);
    assert OrderOk(order, |slots|);
    var i := Find(slots, order, k, lay.hash(k), 0);
    forall p | 0 <= p < |slots| && slots[p].Used? && slots[p].key == k
      ensures i < |order| && order[i] == p
    {
      assert Placed(slots, lay, p);
      var j :| 0 <= j < |order| && order[j] == p;
      assert Holds(slots[order[j]], k, lay.hash(k));
    }
  }

  // ------------------------------------------------------------------
  // Inserting
  // ------------------------------------------------------------------

  predicate Stale<K, V>(s: Slot<K, V>, now: U64) {
    s.Used? && Expired(s, now)
  }

  // The expired slots among the first m of the probe order wiped.
  function Purge<K, V>(slots: Slots<K, V>, order: seq<nat>, m: nat, now: U64): (r: Slots<K, V>)
    requires m <= |order| && forall j :: 0 <= j < |order| ==> order[j] < |slots|
    ensures |r| == |slots|
    ensures forall p :: 0 <= p < |slots| ==> r[p] == if Stale(slots[p], now) && p in order[..m] then Empty else slots[p]
  {
    seq(|slots|, p requires 0 <= p < |slots| => if Stale(slots[p], now) && p in order[..m] then Empty else slots[p])
  }

  // The first position of the order, below m, whose slot is empty; m if none.
  function FirstFree<K, V>(slots: Slots<K, V>, order: seq<nat>, m: nat): (r: nat)
    requires m <= |order| && forall j :: 0 <= j < |order| ==> order[j] < |slots|
    ensures r <= m
    ensures r < m ==> slots[order[r]].Empty?
    ensures forall j :: 0 <= j < r ==> slots[order[j]].Used?
  {
    if m == 0 then 0
    else
      var r := FirstFree(slots, order, m - 1);
      if r < m - 1 then r else if slots[order[m - 1]].Empty? then m - 1 else m
  }

  ghost predicate IsOldest<K, V>(slots: Slots<K, V>, order: seq<nat>, r: nat, m: nat)
    requires m <= |order| && forall j :: 0 <= j < |order| ==> order[j] < |slots|
    requires forall j :: 0 <= j < m ==> slots[order[j]].Used?
  {
    && r < m
    && (forall j :: 0 <= j < m ==> slots[order[r]].stamp <= slots[order[j]].stamp)
    && (forall j :: 0 <= j < r ==> slots[order[r]].stamp < slots[order[j]].stamp)
  }

  // The first of the least recently touched slots.
  function Oldest<K, V>(slots: Slots<K, V>, order: seq<nat>, m: nat): (r: nat)
    requires 0 < m <= |order| && forall j :: 0 <= j < |order| ==> order[j] < |slots|
    requires forall j :: 0 <= j < m ==> slots[order[j]].Used?
    ensures IsOldest(slots, order, r, m)
  {
    if m == 1 then 0
    else
      var r := Oldest(slots, order, m - 1);
      if slots[order[m - 1]].stamp < slots[order[r]].stamp then m - 1 else r
  }

  // The first live entry for k on its probe order.
  function FindLive<K(==), V>(slots: Slots<K, V>, order: seq<nat>, k: K, hash: nat, now: U64, i: nat): (r: nat)
    requires i <= |order| && forall j :: 0 <= j < |order| ==> order[j] < |slots|
    ensures i <= r <= |order|
    ensures r < |order| ==> Holds(slots[order[r]], k, hash) && !Stale(slots[order[r]], now)
    ensures forall j :: i <= j < r ==> !Holds(slots[order[j]], k, hash) || Stale(slots[order[j]], now)
    decreases |order| - i
  {
    if i == |order| || (Holds(slots[order[i]], k, hash) && !Stale(slots[order[i]], now)) then i
    else FindLive(slots, order, k, hash, now, i + 1)
  }

  datatype Outcome = Refreshed | Filled | Evicted

  // What an accepted insert does: a live entry for the key is refreshed in
  // place; otherwise the first free slot of the order -- expired slots count as
  // free -- takes the entry; otherwise the oldest slot of the order is evicted.
  function Inserted<K(==), V>(s: Slots<K, V>, order: seq<nat>, e: Slot<K, V>, now: U64): (r: (Slots<K, V>, Outcome))
    requires e.Used? && OrderOk(order, |s|)
    ensures |r.0| == |s|
  {
    var m := FindLive(s, order, e.key, e.hash, now, 0);
    var u := Purge(s, order, m, now);
    if m < |order| then (u[order[m] := e], Refreshed)
    else
      var free := FirstFree(u, order, m);
      if free < m then (u[order[free] := e], Filled)
      else (u[order[Oldest(u, order, m)] := e], Evicted)
  }

  // Where an insert writes, and what it finds there.
  lemma InsertTarget<K, V>(s: Slots<K, V>, order: seq<nat>, e: Slot<K, V>, now: U64) returns (i: nat)
    requires e.Used? && OrderOk(order, |s|)
    ensures i < |order|
    ensures var (t, out) := Inserted(s, order, e, now);
      var m := FindLive(s, order, e.key, e.hash, now, 0);
      var u := Purge(s, order, m, now);
      && t == u[order[i] := e]
      && (out.Refreshed? ==> i == m)
      && (!out.Refreshed? ==> m == |order|)
      && (out.Filled? ==> u[order[i]].Empty?)
      && (out.Evicted? ==> (forall j :: 0 <= j < |order| ==> u[order[j]].Used?) && IsOldest(u, order, i, m))
  {
    var m := FindLive(s, order, e.key, e.hash, now, 0);
    var u := Purge(s, order, m, now);
    i := if m < |order| then m
         else if FirstFree(u, order, m) < m then FirstFree(u, order, m)
         else Oldest(u, order, m);
  }

  // Purging keeps the invariant; after a purge of the whole order with no live
  // entry for k, no slot of the table has key k.
  lemma PurgeKeeps<K(!new), V>(s: Slots<K, V>, lay: Layout<K>, k: K, m: nat, now: U64)
    requires Inv(s, lay) && m <= |lay.order(k)|
    ensures OrderOk(lay.order(k), |s|)
    ensures Inv(Purge(s, lay.order(k), m, now), lay)
    ensures m == FindLive(s, lay.order(k), k, lay.hash(k), now, 0) == |lay.order(k)| ==> !Present(Purge(s, lay.order(k), m, now), k)
  {
    var order := lay.order(k);
    assert OrderOk(order, |s|);
    var u := Purge(s, order, m, now);
    forall p | 0 <= p < |u| ensures Placed(u, lay, p) { assert Placed(s, lay, p); }
    if m == FindLive(s, order, k, lay.hash(k), now, 0) == |order| {
      forall p | 0 <= p < |s| && s[p].Used? && s[p].key == k ensures u[p].Empty? {
        assert Placed(s, lay, p);
        var j :| 0 <= j < |order| && order[j] == p;
        assert !Holds(s[order[j]], k, lay.hash(k)) || Stale(s[order[j]], now);
        assert order[..m] == order;
      }
    }
  }

  lemma InsertKeepsInv<K(!new), V>(s: Slots<K, V>, lay: Layout<K>, e: Slot<K, V>, now: U64)
    requires Inv(s, lay) && e.Used? && e.hash == lay.hash(e.key) && e.ttl > 0
    requires OrderOk(lay.order(e.key), |s|)
    ensures Inv(Inserted(s, lay.order(e.key), e, now).0, lay)
  {
    var order := lay.order(e.key);
    var (t, out) := Inserted(s, order, e, now);
    var m := FindLive(s, order, e.key, e.hash, now, 0);
    var u := Purge(s, order, m, now);
    PurgeKeeps(s, lay, e.key, m, now);
    var i := InsertTarget(s, order, e, now);
    forall p | 0 <= p < |t| ensures Placed(t, lay, p) {
      assert Placed(u, lay, p);
    }
    forall q | 0 <= q < |u| && q != order[i] && u[q].Used? ensures u[q].key != e.key {
      if out.Refreshed? { assert s[order[i]].key == e.key; }
    }
  }

  // Nothing is invented and nothing live is lost, but for one least-recently
  // touched slot when every slot of the probe order is live.
  lemma InsertEffect<K(!new), V>(s: Slots<K, V>, lay: Layout<K>, e: Slot<K, V>, now: U64)
    requires Inv(s, lay) && e.Used? && e.hash == lay.hash(e.key)
    requires OrderOk(lay.order(e.key), |s|)
    ensures var (t, out) := Inserted(s, lay.order(e.key), e, now);
      && e in t
      && (forall p :: 0 <= p < |s| && t[p].Used? && t[p].key != e.key ==> t[p] == s[p])
      && (forall p :: 0 <= p < |s| && s[p].Used? && s[p].key != e.key && t[p] != s[p] ==>
            Stale(s[p], now) || (out.Evicted? && t[p] == e && LeastRecent(s, lay.order(e.key), p, now)))
      && (out.Evicted? ==> !Present(s, e.key))
  {
    var order := lay.order(e.key);
    var (t, out) := Inserted(s, order, e, now);
    var m := FindLive(s, order, e.key, e.hash, now, 0);
    var u := Purge(s, order, m, now);
    var i := InsertTarget(s, order, e, now);
    assert t[order[i]] == e;
    if out.Evicted? {
      assert order[..m] == order;
      forall j | 0 <= j < |order| ensures s[order[j]].Used? && !Stale(s[order[j]], now) && u[order[j]] == s[order[j]] {
        assert u[order[j]].Used?;
      }
      forall p | 0 <= p < |s| && s[p].Used? ensures s[p].key != e.key {
        assert Placed(s, lay, p);
      }
    }
  }

  ghost predicate LeastRecent<K, V>(s: Slots<K, V>, order: seq<nat>, p: nat, now: U64)
    requires p < |s| && forall j :: 0 <= j < |order| ==> order[j] < |s|
  {
    && s[p].Used? && p in order
    && forall j :: 0 <= j < |order| ==>
        s[order[j]].Used? && !Stale(s[order[j]], now) && s[p].stamp <= s[order[j]].stamp
  }

  // ------------------------------------------------------------------
  // What the insert loops know after i rounds
  // ------------------------------------------------------------------

  const NO_SLOT: int := -1
  const MAX_STAMP: U64 := 0xFFFF_FFFF_FFFF_FFFF

  // free is the first free slot seen, and while there is none, oldest is the
  // least recently touched one.
  ghost predicate Scanned<K, V>(s: Slots<K, V>, order: seq<nat>, now: U64, i: nat, free: int, oldest: nat, time: U64)
    requires OrderOk(order, |s|) && i <= |order|
  {
    var u := Purge(s, order, i, now);
    var f := FirstFree(u, order, i);
    if f < i then free == order[f]
    else
      && free == NO_SLOT
      && (i == 0 ==> oldest == order[0] && time == MAX_STAMP)
      && (i > 0 ==> oldest == order[Oldest(u, order, i)] && time == u[oldest].stamp)
  }

  lemma PurgeNext<K, V>(s: Slots<K, V>, order: seq<nat>, i: nat, now: U64)
    requires OrderOk(order, |s|) && i < |order|
    ensures var u := Purge(s, order, i, now);
      && u[order[i]] == s[order[i]]
      && Purge(s, order, i + 1, now) == if Stale(s[order[i]], now) then u[order[i] := Empty] else u
  {
    assert order[..i + 1] == order[..i] + [order[i]];
    assert order[i] !in order[..i];
  }

  lemma PurgeNone<K, V>(s: Slots<K, V>, order: seq<nat>, now: U64)
    requires OrderOk(order, |s|)
    ensures Purge(s, order, 0, now) == s
  {
  }

  // Positions below m are not affected by a write outside them.
  lemma {:induction false} FirstFreeFrame<K, V>(u: Slots<K, V>, t: Slots<K, V>, order: seq<nat>, m: nat)
    requires |u| == |t| && OrderOk(order, |u|) && m <= |order|
    requires forall j :: 0 <= j < m ==> u[order[j]] == t[order[j]]
    ensures FirstFree(u, order, m) == FirstFree(t, order, m)
  {
    if m > 0 { FirstFreeFrame(u, t, order, m - 1); }
  }

  lemma ScanStart<K, V>(s: Slots<K, V>, order: seq<nat>, now: U64)
    requires OrderOk(order, |s|)
    ensures Scanned(s, order, now, 0, NO_SLOT, order[0], MAX_STAMP)
  {
  }

  // A round over an empty or expired slot.
  lemma ScanDead<K, V>(s: Slots<K, V>, order: seq<nat>, now: U64, i: nat, free: int, oldest: nat, time: U64)
    requires OrderOk(order, |s|) && i < |order|
    requires Scanned(s, order, now, i, free, oldest, time)
    requires s[order[i]].Empty? || Stale(s[order[i]], now)
    ensures Scanned(s, order, now, i + 1, if free == NO_SLOT then order[i] else free, oldest, time)
  {
    PurgeNext(s, order, i, now);
    FirstFreeFrame(Purge(s, order, i, now), Purge(s, order, i + 1, now), order, i);
  }

  // A round over a live slot.
  lemma ScanLive<K, V>(s: Slots<K, V>, order: seq<nat>, now: U64, i: nat, free: int, oldest: nat, time: U64)
    requires OrderOk(order, |s|) && i < |order|
    requires Scanned(s, order, now, i, free, oldest, time)
    requires s[order[i]].Used? && !Stale(s[order[i]], now)
    ensures var e := s[order[i]];
      if e.stamp < time then Scanned(s, order, now, i + 1, free, order[i], e.stamp)
      else Scanned(s, order, now, i + 1, free, oldest, time)
  {
    PurgeNext(s, order, i, now);
    var u := Purge(s, order, i, now);
    assert Purge(s, order, i + 1, now) == u;
    assert FirstFree(u, order, i + 1) == if FirstFree(u, order, i) < i then FirstFree(u, order, i) else i + 1;
  }

  // ------------------------------------------------------------------
  // The other operations
  // ------------------------------------------------------------------

  // A hit hands out the stored payload and moves the timestamp forward; an
  // expired match is a miss, and answer_cache drops it on the spot.
  function Looked<K(==), V>(s: Slots<K, V>, order: seq<nat>, k: K, hash: nat, now: U64, drop: bool): (r: (Slots<K, V>, Option<(V, nat)>))
    requires OrderOk(order, |s|)
    ensures |r.0| == |s|
  {
    var i := Find(s, order, k, hash, 0);
    if i == |order| then (s, None)
    else
      var e := s[order[i]];
      if Stale(e, now) then (if drop then s[order[i] := Empty] else s, None)
      else (s[order[i] := e.(stamp := if e.stamp < now then now else e.stamp)], Some((e.value, e.ttl)))
  }

  function Invalidated<K(==), V>(s: Slots<K, V>, order: seq<nat>, k: K, hash: nat): (r: Slots<K, V>)
    requires OrderOk(order, |s|)
    ensures |r| == |s|
  {
    var i := Find(s, order, k, hash, 0);
    if i == |order| then s else s[order[i] := Empty]
  }

  function Pruned<K, V>(s: Slots<K, V>, now: U64): (r: Slots<K, V>)
    ensures |r| == |s|
    ensures forall p :: 0 <= p < |s| ==> r[p] == if Stale(s[p], now) then Empty else s[p]
  {
    seq(|s|, p requires 0 <= p < |s| => if Stale(s[p], now) then Empty else s[p])
  }

  function Cleared<K, V>(s: Slots<K, V>): (r: Slots<K, V>)
    ensures |r| == |s|
    ensures forall p :: 0 <= p < |s| ==> r[p] == Empty
  {
    seq(|s|, _ => Empty)
  }

  function NumUsed<K, V>(s: Slots<K, V>): (n: nat)
    ensures n <= |s|
  {
    if s == [] then 0 else NumUsed(s[..|s| - 1]) + (if s[|s| - 1].Used? then 1 else 0)
  }

  function One<K, V>(e: Slot<K, V>): int {
    if e.Used? then 1 else 0
  }

  lemma {:induction false} NumUsedUpdate<K, V>(s: Slots<K, V>, p: nat, e: Slot<K, V>)
    requires p < |s|
    ensures NumUsed(s[p := e]) == NumUsed(s) - One(s[p]) + One(e)
  {
    var t := s[p := e];
    if p == |s| - 1 {
      assert t[..|s| - 1] == s[..|s| - 1];
    } else {
      assert t[..|s| - 1] == s[..|s| - 1][p := e];
      NumUsedUpdate(s[..|s| - 1], p, e);
    }
  }

  // All slots, first to last.
  function Whole(n: nat): (order: seq<nat>)
    ensures |order| == n && forall i :: 0 <= i < n ==> order[i] == i
  {
    seq(n, i => i)
  }

  lemma PurgeWhole<K, V>(s: Slots<K, V>, now: U64)
    requires |s| > 0
    ensures OrderOk(Whole(|s|), |s|)
    ensures Purge(s, Whole(|s|), |s|, now) == Pruned(s, now)
  {
    var order := Whole(|s|);
    assert order[..|s|] == order;
    forall p | 0 <= p < |s| ensures p in order { assert order[p] == p; }
  }

  predicate IsPowerOf2(n: nat) {
    n == 1 || (n > 0 && n % 2 == 0 && IsPowerOf2(n / 2))
  }

  lemma {:induction false} NoneUsed<K, V>(s: Slots<K, V>)
    requires forall p :: 0 <= p < |s| ==> s[p].Empty?
    ensures NumUsed(s) == 0
  {
    if s != [] { NoneUsed(s[..|s| - 1]); }
  }

  // A touch moves nothing but a timestamp.
  lemma TouchKeeps<K(!new), V>(s: Slots<K, V>, lay: Layout<K>, p: nat, now: U64)
    requires Inv(s, lay) && p < |s| && s[p].Used?
    ensures var t := s[p := s[p].(stamp := if s[p].stamp < now then now else s[p].stamp)];
      Inv(t, lay) && NumUsed(t) == NumUsed(s)
  {
    var e := s[p].(stamp := if s[p].stamp < now then now else s[p].stamp);
    WipeKeepsInv(s, s[p := e], lay);
    NumUsedUpdate(s, p, e);
  }

  // ------------------------------------------------------------------
  // Runs
  // ------------------------------------------------------------------

  // One operation as its caller sees it.  An insert is one the cache accepted.
  datatype Op<K, V> =
    | Insert(key: K, ttl: nat, value: V, now: U64)
    | Lookup(key: K, now: U64)
    | Invalidate(key: K)
    | Prune(now: U64)
    | Clear

  ghost predicate OpOk<K, V>(op: Op<K, V>) {
    op.Insert? ==> op.ttl > 0
  }

  ghost function Apply<K(!new), V>(s: Slots<K, V>, op: Op<K, V>, lay: Layout<K>, drop: bool): (r: (Slots<K, V>, Option<(V, nat)>))
    requires forall k: K :: OrderOk(lay.order(k), |s|)
    ensures |r.0| == |s|
  {
    match op
    case Insert(k, ttl, v, now) => (Inserted(s, lay.order(k), Used(k, lay.hash(k), now, ttl, v), now).0, None)
    case Lookup(k, now) => Looked(s, lay.order(k), k, lay.hash(k), now, drop)
    case Invalidate(k) => (Invalidated(s, lay.order(k), k, lay.hash(k)), None)
    case Prune(now) => (Pruned(s, now), None)
    case Clear => (Cleared(s), None)
  }

  ghost function Run<K(!new), V>(s: Slots<K, V>, ops: seq<Op<K, V>>, lay: Layout<K>, drop: bool): (t: Slots<K, V>)
    requires forall k: K :: OrderOk(lay.order(k), |s|)
    ensures |t| == |s|
    decreases |ops|
  {
    if ops == [] then s else Run(Apply(s, ops[0], lay, drop).0, ops[1..], lay, drop)
  }

  // The latest accepted insert of every key since it was last invalidated and
  // since the last clear.  Expiry, eviction and lookups leave it alone.
  type Latest<K, V> = map<K, (V, nat)>

  function Noted<K, V>(latest: Latest<K, V>, op: Op<K, V>): Latest<K, V> {
    match op
    case Insert(k, ttl, v, now) => latest[k := (v, ttl)]
    case Lookup(k, now) => latest
    case Invalidate(k) => latest - {k}
    case Prune(now) => latest
    case Clear => map[]
  }

  function NotedAll<K, V>(latest: Latest<K, V>, ops: seq<Op<K, V>>): Latest<K, V>
    decreases |ops|
  {
    if ops == [] then latest else NotedAll(Noted(latest, ops[0]), ops[1..])
  }

  // Every used slot stores its key's latest insert.
  ghost predicate Faithful<K, V>(s: Slots<K, V>, latest: Latest<K, V>) {
    forall p :: 0 <= p < |s| && s[p].Used? ==> s[p].key in latest && latest[s[p].key] == (s[p].value, s[p].ttl)
  }

  lemma WipeKeepsInv<K(!new), V>(s: Slots<K, V>, t: Slots<K, V>, lay: Layout<K>)
    requires Inv(s, lay) && |t| == |s|
    requires forall p :: 0 <= p < |s| && t[p].Used? ==>
      s[p].Used? && t[p].key == s[p].key && t[p].hash == s[p].hash && t[p].ttl == s[p].ttl
    ensures Inv(t, lay)
  {
    forall p | 0 <= p < |t| ensures Placed(t, lay, p) { assert Placed(s, lay, p); }
  }

  // After an invalidation no slot of the whole table has the key.
  lemma InvalidatedIsGone<K(!new), V>(s: Slots<K, V>, lay: Layout<K>, k: K)
    requires Inv(s, lay)
    ensures OrderOk(lay.order(k), |s|)
    ensures !Present(Invalidated(s, lay.order(k), k, lay.hash(k)), k)
  {
    ProbeIsScan(s, lay, k);
  }

  // One step of a run: the invariant and faithfulness are kept, and a hit is the
  // latest insert.
  lemma StepKeeps<K(!new), V>(s: Slots<K, V>, latest: Latest<K, V>, op: Op<K, V>, lay: Layout<K>, drop: bool)
    requires Inv(s, lay) && Faithful(s, latest) && OpOk(op)
    ensures var (t, res) := Apply(s, op, lay, drop);
      && Inv(t, lay) && Faithful(t, Noted(latest, op))
      && (res.Some? ==> op.Lookup? && op.key in latest && res.value == latest[op.key])
  {
    var t := Apply(s, op, lay, drop).0;
    match op {
      case Insert(k, ttl, v, now) =>
        var e := Used(k, lay.hash(k), now, ttl, v);
        assert OrderOk(lay.order(k), |s|);
        InsertKeepsInv(s, lay, e, now);
        InsertEffect(s, lay, e, now);
        InsertedOnce(s, t, lay, e, now);
      case Lookup(k, now) =>
        ProbeIsScan(s, lay, k);
        WipeKeepsInv(s, t, lay);
      case Invalidate(k) =>
        ProbeIsScan(s, lay, k);
        WipeKeepsInv(s, t, lay);
        InvalidatedIsGone(s, lay, k);
      case Prune(now) =>
        WipeKeepsInv(s, t, lay);
      case Clear =>
        WipeKeepsInv(s, t, lay);
    }
  }

  // The inserted key is stored once, as inserted.
  lemma InsertedOnce<K(!new), V>(s: Slots<K, V>, t: Slots<K, V>, lay: Layout<K>, e: Slot<K, V>, now: U64)
    requires Inv(s, lay) && e.Used? && e.hash == lay.hash(e.key) && e.ttl > 0
    requires OrderOk(lay.order(e.key), |s|)
    requires t == Inserted(s, lay.order(e.key), e, now).0
    ensures forall p :: 0 <= p < |t| && t[p].Used? && t[p].key == e.key ==> t[p] == e
  {
    InsertKeepsInv(s, lay, e, now);
    var i := InsertTarget(s, lay.order(e.key), e, now);
    assert t[lay.order(e.key)[i]] == e;
  }

  // Over any run with arbitrary clock readings: the invariant holds at the end
  // and the table never holds anything but latest inserts.
  lemma {:induction false} RunKeeps<K(!new), V>(s: Slots<K, V>, latest: Latest<K, V>, ops: seq<Op<K, V>>, lay: Layout<K>, drop: bool)
    requires Inv(s, lay) && Faithful(s, latest)
    requires forall i :: 0 <= i < |ops| ==> OpOk(ops[i])
    ensures Inv(Run(s, ops, lay, drop), lay)
    ensures Faithful(Run(s, ops, lay, drop), NotedAll(latest, ops))
    decreases |ops|
  {
    if ops != [] {
      StepKeeps(s, latest, ops[0], lay, drop);
      RunKeeps(Apply(s, ops[0], lay, drop).0, Noted(latest, ops[0]), ops[1..], lay, drop);
    }
  }

  // A cache that starts empty never invents a value: whatever happened before, a
  // hit returns exactly the payload of the latest accepted insert of that key
  // since the last clear and the key's last invalidation.
  lemma HitIsLatest<K(!new), V>(s: Slots<K, V>, ops: seq<Op<K, V>>, lay: Layout<K>, drop: bool, k: K, now: U64)
    requires Inv(s, lay) && forall p :: 0 <= p < |s| ==> s[p].Empty?
    requires forall i :: 0 <= i < |ops| ==> OpOk(ops[i])
    ensures var t := Run(s, ops, lay, drop);
      var res := Apply(t, Lookup(k, now), lay, drop).1;
      res.Some? ==> k in NotedAll(map[], ops) && res.value == NotedAll(map[], ops)[k]
  {
    RunKeeps(s, map[], ops, lay, drop);
    StepKeeps(Run(s, ops, lay, drop), NotedAll(map[], ops), Lookup(k, now), lay, drop);
  }

  // ------------------------------------------------------------------
  // What an operation can put into a table
  // ------------------------------------------------------------------

  // Every entry of t is one of s, up to its timestamp.
  ghost predicate Within<K, V>(s: Slots<K, V>, t: Slots<K, V>) {
    && |t| == |s|
    && forall p :: 0 <= p < |s| && t[p].Used? ==>
      s[p].Used? && t[p].key == s[p].key && t[p].value == s[p].value && t[p].ttl == s[p].ttl
  }

  // The table stores v with this TTL under k.
  ghost predicate Stores<K, V>(s: Slots<K, V>, k: K, v: V, ttl: nat) {
    exists p :: 0 <= p < |s| && s[p].Used? && s[p].key == k && s[p].value == v && s[p].ttl == ttl
  }

  lemma WithinStores<K, V>(s: Slots<K, V>, t: Slots<K, V>, k: K, v: V, ttl: nat)
    requires Within(s, t) && Stores(t, k, v, ttl)
    ensures Stores(s, k, v, ttl)
  {
  }

  // A hit hands out something stored; a lookup adds nothing.
  lemma LookedStores<K(!new), V>(s: Slots<K, V>, lay: Layout<K>, k: K, now: U64, drop: bool)
    requires Inv(s, lay)
    ensures OrderOk(lay.order(k), |s|)
    ensures var (t, r) := Looked(s, lay.order(k), k, lay.hash(k), now, drop);
      && Inv(t, lay) && Within(s, t)
      && (r.Some? ==> Stores(s, k, r.value.0, r.value.1))
  {
    ProbeIsScan(s, lay, k);
    WipeKeepsInv(s, Looked(s, lay.order(k), k, lay.hash(k), now, drop).0, lay);
  }

  // An accepted insert adds the new entry and nothing else.
  lemma InsertedStores<K(!new), V>(s: Slots<K, V>, lay: Layout<K>, e: Slot<K, V>, now: U64)
    requires Inv(s, lay) && e.Used? && e.hash == lay.hash(e.key) && e.ttl > 0
    ensures OrderOk(lay.order(e.key), |s|)
    ensures var t := Inserted(s, lay.order(e.key), e, now).0;
      && Inv(t, lay)
      && forall k: K, v: V, ttl: nat {:trigger Stores(t, k, v, ttl)} :: Stores(t, k, v, ttl) ==>
        (k == e.key && v == e.value && ttl == e.ttl) || Stores(s, k, v, ttl)
  {
    assert OrderOk(lay.order(e.key), |s|);
    InsertKeepsInv(s, lay, e, now);
    var (t, out) := Inserted(s, lay.order(e.key), e, now);
    InsertEffect(s, lay, e, now);
    InsertedOnce(s, t, lay, e, now);
    forall k: K, v: V, ttl: nat | Stores(t, k, v, ttl)
      ensures (k == e.key && v == e.value && ttl == e.ttl) || Stores(s, k, v, ttl)
    {
      var p :| 0 <= p < |t| && t[p].Used? && t[p].key == k && t[p].value == v && t[p].ttl == ttl;
      assert t[p] == e || t[p] == s[p];
    }
  }

  // An invalidation adds nothing.
  lemma InvalidatedWithin<K(!new), V>(s: Slots<K, V>, lay: Layout<K>, k: K)
    requires Inv(s, lay)
    ensures OrderOk(lay.order(k), |s|)
    ensures var t := Invalidated(s, lay.order(k), k, lay.hash(k)); Inv(t, lay) && Within(s, t)
  {
    ProbeIsScan(s, lay, k);
    WipeKeepsInv(s, Invalidated(s, lay.order(k), k, lay.hash(k)), lay);
  }

  lemma ClearedStoresNothing<K(!new), V>(s: Slots<K, V>, lay: Layout<K>)
    requires Inv(s, lay)
    ensures Inv(Cleared(s), lay)
    ensures forall k: K, v: V, ttl: nat {:trigger Stores(Cleared(s), k, v, ttl)} :: !Stores(Cleared(s), k, v, ttl)
  {
    WipeKeepsInv(s, Cleared(s), lay);
  }

  // A lookup hits exactly when a scan of the whole table would find the key with
  // an unexpired timestamp, hands out what is stored there, and renews that
  // timestamp if the clock reads later: expiry slides.
  lemma HitIffLive<K(!new), V>(s: Slots<K, V>, lay: Layout<K>, k: K, now: U64, drop: bool)
    requires Inv(s, lay)
    ensures OrderOk(lay.order(k), |s|)
    ensures var (t, r) := Looked(s, lay.order(k), k, lay.hash(k), now, drop);
      && (r.Some? <==> exists p :: 0 <= p < |s| && s[p].Used? && s[p].key == k && !Expired(s[p], now))
      && (forall p :: 0 <= p < |s| && s[p].Used? && s[p].key == k && !Expired(s[p], now) ==>
            r == Some((s[p].value, s[p].ttl)) && t[p] == s[p].(stamp := if s[p].stamp < now then now else s[p].stamp))
      && (forall p :: 0 <= p < |s| && (s[p].Used? ==> s[p].key != k) ==> t[p] == s[p])
  {
    ProbeIsScan(s, lay, k);
  }

  // ------------------------------------------------------------------
  // How long an entry lives
  // ------------------------------------------------------------------

  // The last nanosecond at which the entry of a slot counts.
  function Deadline<K, V>(s: Slot<K, V>): int
    requires s.Used?
  {
    s.stamp + s.ttl * 1_000_000_000
  }

  // No entry outlives the 64-bit clock.
  ghost predicate InRange<K, V>(s: Slots<K, V>) {
    forall p :: 0 <= p < |s| && s[p].Used? ==> Deadline(s[p]) < 0x1_0000_0000_0000_0000
  }

  // The table stores k, last touched no longer than its TTL ago.
  ghost predicate InTime<K, V>(s: Slots<K, V>, k: K, now: U64) {
    exists p :: 0 <= p < |s| && s[p].Used? && s[p].key == k && now <= Deadline(s[p])
  }

  lemma StaleIs<K, V>(s: Slot<K, V>, now: U64)
    requires s.Used? && Deadline(s) < 0x1_0000_0000_0000_0000
    ensures Stale(s, now) <==> Deadline(s) < now
  {
  }

  // A lookup hits exactly if the key is stored and no longer untouched than its
  // TTL, and it hands out what is stored.
  lemma HitIffInTime<K(!new), V>(s: Slots<K, V>, lay: Layout<K>, k: K, now: U64, drop: bool)
    requires Inv(s, lay) && InRange(s)
    ensures OrderOk(lay.order(k), |s|)
    ensures var (t, r) := Looked(s, lay.order(k), k, lay.hash(k), now, drop);
      && (r.Some? <==> InTime(s, k, now))
      && (r.Some? ==> Stores(s, k, r.value.0, r.value.1))
      && (forall p :: 0 <= p < |s| && s[p].Used? && s[p].key == k ==>
            if now <= Deadline(s[p]) then t[p].Used? && t[p].stamp == MaxNat(s[p].stamp, now)
            else t[p] == if drop then Empty else s[p])
  {
    HitIffLive(s, lay, k, now, drop);
    LookedStores(s, lay, k, now, drop);
    forall p | 0 <= p < |s| && s[p].Used? ensures Stale(s[p], now) <==> Deadline(s[p]) < now {
      StaleIs(s[p], now);
    }
    ProbeIsScan(s, lay, k);
  }

  // What was inserted at t0 is found until its TTL has passed, and then no more.
  lemma InsertThenLookup<K(!new), V>(s: Slots<K, V>, lay: Layout<K>, e: Slot<K, V>, now: U64, drop: bool)
    requires Inv(s, lay) && e.Used? && e.hash == lay.hash(e.key) && e.ttl > 0 && Deadline(e) < 0x1_0000_0000_0000_0000
    ensures OrderOk(lay.order(e.key), |s|)
    ensures var t := Inserted(s, lay.order(e.key), e, e.stamp).0;
      Looked(t, lay.order(e.key), e.key, e.hash, now, drop).1 ==
        if now <= e.stamp + e.ttl * 1_000_000_000 then Some((e.value, e.ttl)) else None
  {
    assert OrderOk(lay.order(e.key), |s|);
    var t := Inserted(s, lay.order(e.key), e, e.stamp).0;
    InsertKeepsInv(s, lay, e, e.stamp);
    InsertEffect(s, lay, e, e.stamp);
    InsertedOnce(s, t, lay, e, e.stamp);
    HitIffLive(t, lay, e.key, now, drop);
    StaleIs(e, now);
    var p :| 0 <= p < |t| && t[p] == e;
  }

  // An insert loses entries past their TTL only, but for one least recently touched
  // of a probe order full of entries within theirs.
  lemma InsertLosesOverdue<K(!new), V>(s: Slots<K, V>, lay: Layout<K>, e: Slot<K, V>, now: U64, p: nat)
    requires Inv(s, lay) && InRange(s) && e.Used? && e.hash == lay.hash(e.key)
    requires p < |s| && s[p].Used? && s[p].key != e.key
    ensures OrderOk(lay.order(e.key), |s|)
    ensures var order := lay.order(e.key);
      var t := Inserted(s, order, e, now).0;
      t[p] == s[p] || Deadline(s[p]) < now
        || (t[p] == e && p in order && forall j :: 0 <= j < |order| ==>
              s[order[j]].Used? && now <= Deadline(s[order[j]]) && s[p].stamp <= s[order[j]].stamp)
  {
    var order := lay.order(e.key);
    assert OrderOk(order, |s|);
    InsertEffect(s, lay, e, now);
    forall q | 0 <= q < |s| && s[q].Used? ensures Stale(s[q], now) <==> Deadline(s[q]) < now {
      StaleIs(s[q], now);
    }
  }

  // A prune removes exactly what is past its TTL.
  lemma PruneRemovesOverdue<K, V>(s: Slots<K, V>, now: U64, p: nat)
    requires InRange(s) && p < |s|
    ensures Pruned(s, now)[p] == if s[p].Used? && Deadline(s[p]) < now then Empty else s[p]
  {
    if s[p].Used? { StaleIs(s[p], now); }
  }

  lemma PrunedInRange<K, V>(s: Slots<K, V>, now: U64)
    ensures InRange(s) ==> forall p :: 0 <= p < |s| ==>
      Pruned(s, now)[p] == if s[p].Used? && Deadline(s[p]) < now then Empty else s[p]
  {
    if InRange(s) {
      forall p: nat | p < |s| ensures Pruned(s, now)[p] == if s[p].Used? && Deadline(s[p]) < now then Empty else s[p] {
        PruneRemovesOverdue(s, now, p);
      }
    }
  }
}
