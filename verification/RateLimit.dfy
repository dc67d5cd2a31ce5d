// rate_limit_allow: one token bucket for all traffic above one bucket per group
// of source addresses.
module RateLimit {
  import opened Prelude

  const BUCKETS: nat := 8192
  const MAX_TOKENS: int := 20
  const REFILL_PER_SEC: int := 10
  const GLOBAL_MAX_TOKENS: int := 500
  const GLOBAL_REFILL_PER_SEC: int := 200

  // The longest gaps, in seconds, a refill survives without overflow.
  const MAX_GAP: int := 214_748_362
  const GLOBAL_MAX_GAP: int := 10_737_415

  const TWO32: int := 0x1_0000_0000

  // A C int of 32 bits, two's complement.
  predicate FitsInt(x: int) {
    -0x8000_0000 <= x < 0x8000_0000
  }

  function ToInt(x: int): (r: int)
    ensures FitsInt(r)
    ensures FitsInt(x) ==> r == x
  {
    (x + 0x8000_0000) % TWO32 - 0x8000_0000
  }

  function Refilled(tokens: int, last: Word, now: Word, rate: int, max: int): int {
    var refill := ToInt(ToInt((now - last) % TWO32) * rate);
    var sum := ToInt(tokens + refill);
    if sum > max then max else sum
  }

  datatype Bucket = Bucket(ip: Word, tokens: int, last: Word)

  datatype State = State(tokens: int, last: Word, table: seq<Bucket>)

  function GlobalAt(s: State, now: Word): int {
    if now != s.last then Refilled(s.tokens, s.last, now, GLOBAL_REFILL_PER_SEC, GLOBAL_MAX_TOKENS) else s.tokens
  }

  // A bucket as a packet from src finds it.
  function BucketAt(b: Bucket, src: Word, now: Word): Bucket {
    if b.ip != src then Bucket(src, MAX_TOKENS, now)
    else if now != b.last then Bucket(src, Refilled(b.tokens, b.last, now, REFILL_PER_SEC, MAX_TOKENS), now)
    else b
  }

  function Step(s: State, src: Word, now: Word): (State, bool)
    requires |s.table| == BUCKETS
  {
    var g := GlobalAt(s, now);
    if g <= 0 then (State(g, now, s.table), false)
    else
      var i := src % BUCKETS;
      var b := BucketAt(s.table[i], src, now);
      if b.tokens > 0
      then (State(g - 1, now, s.table[i := b.(tokens := b.tokens - 1)]), true)
      else (State(g, now, s.table[i := b]), false)
  }

  class RateLimiter {
    const table: array<Bucket>
    var tokens: int
    var last: Word

    ghost predicate Valid() {
      table.Length == BUCKETS
    }

    ghost function Buckets(): State
      reads this, table
    {
      State(tokens, last, table[..])
    }

    // Static storage, then proxy_init.
    constructor (now: Word)
      ensures Valid() && fresh(table) && table.Length == 8192
      ensures Buckets() == Start(now)
    {
      table := new Bucket[BUCKETS](_ => Bucket(0, 0, 0));
      tokens, last := GLOBAL_MAX_TOKENS, now;
      new;
      assert table[..] == Start(now).table;
    }

    method Allow(src: Word, now: Word) returns (allow: bool)
      requires Valid()
      modifies this, table
      ensures (Buckets(), allow) == Step(old(Buckets()), src, now)
    {
      hide ToInt;
      ghost var was := table[..];
      var idx := src % BUCKETS;
      if now != last {
        var refill := ToInt(ToInt((now - last) % TWO32) * GLOBAL_REFILL_PER_SEC);
        tokens := if ToInt(tokens + refill) > GLOBAL_MAX_TOKENS then GLOBAL_MAX_TOKENS else ToInt(tokens + refill);
        last := now;
      }
      if tokens <= 0 {
        return false;
      }
      var e := table[idx];
      if e.ip != src {
        e := Bucket(src, MAX_TOKENS, now);
      } else if now != e.last {
        var refill := ToInt(ToInt((now - e.last) % TWO32) * REFILL_PER_SEC);
        var more := ToInt(e.tokens + refill);
        e := Bucket(src, if more > MAX_TOKENS then MAX_TOKENS else more, now);
      }
      allow := e.tokens > 0;
      if allow {
        e := e.(tokens := e.tokens - 1);
        tokens := tokens - 1;
      }
      table[idx] := e;
      assert table[..] == was[idx := e];
    }
  }

  function Start(now: Word): State {
    State(GLOBAL_MAX_TOKENS, now, seq(BUCKETS, _ => Bucket(0, 0, 0)))
  }

  // ------------------------------------------------------------------
  // Overflow
  // ------------------------------------------------------------------

  predicate SumFits(tokens: int, gap: int, rate: int) {
    FitsInt(tokens + gap * rate)
  }

  // Every sum and product a refill forms fits an int, whatever the bucket holds.
  ghost predicate NoOverflow(gap: int, rate: int, max: int) {
    FitsInt(gap) && FitsInt(gap * rate) && forall tokens :: 0 <= tokens <= max ==> SumFits(tokens, gap, rate)
  }

  // The largest sum decides.
  lemma OverflowBound(gap: int, rate: int, max: int)
    requires 0 <= gap && 1 <= rate && 0 <= max
    ensures NoOverflow(gap, rate, max) <==> SumFits(max, gap, rate)
  {
    assert gap <= gap * rate by { assert 0 <= gap * (rate - 1); }
    var refill := gap * rate;
    assert SumFits(max, gap, rate) <==> FitsInt(max + refill);
    if FitsInt(max + refill) {
      forall tokens | 0 <= tokens <= max ensures SumFits(tokens, gap, rate) {
      }
    } else {
      assert !SumFits(max, gap, rate);
    }
  }

  // The bounds on the gaps are exact.
  lemma OverflowBounds(gap: int)
    requires 0 <= gap
    ensures NoOverflow(gap, GLOBAL_REFILL_PER_SEC, GLOBAL_MAX_TOKENS) <==> gap <= GLOBAL_MAX_GAP
    ensures NoOverflow(gap, REFILL_PER_SEC, MAX_TOKENS) <==> gap <= MAX_GAP
  {
    OverflowBound(gap, GLOBAL_REFILL_PER_SEC, GLOBAL_MAX_TOKENS);
    OverflowBound(gap, REFILL_PER_SEC, MAX_TOKENS);
  }

  // One second more and a full bucket is refilled to a negative count, so that the
  // packet is dropped.
  lemma OneSecondTooMany(last: Word)
    requires last + GLOBAL_MAX_GAP + 1 < TWO32
    ensures Refilled(GLOBAL_MAX_TOKENS, last, last + GLOBAL_MAX_GAP + 1, GLOBAL_REFILL_PER_SEC, GLOBAL_MAX_TOKENS) < 0
  {
    assert (GLOBAL_MAX_GAP + 1) * GLOBAL_REFILL_PER_SEC == 2_147_483_200;
  }

  lemma RefilledIsMin(tokens: int, last: Word, now: Word, rate: int, max: int)
    requires last <= now && 0 <= tokens <= max && rate > 0
    requires NoOverflow(now - last, rate, max)
    ensures Refilled(tokens, last, now, rate, max) == if tokens + rate * (now - last) > max then max else tokens + rate * (now - last)
  {
    assert (now - last) % TWO32 == now - last;
    assert SumFits(tokens, now - last, rate);
  }

  // ------------------------------------------------------------------
  // Runs
  // ------------------------------------------------------------------

  datatype Call = Call(src: Word, now: Word)

  function After(s: State, c: Call): (t: State)
    requires |s.table| == BUCKETS
    ensures |t.table| == BUCKETS && t.last == c.now
  {
    Step(s, c.src, c.now).0
  }

  function AfterAll(s: State, calls: seq<Call>): (t: State)
    requires |s.table| == BUCKETS
    ensures |t.table| == BUCKETS
    decreases |calls|
  {
    if calls == [] then s else AfterAll(After(s, calls[0]), calls[1..])
  }

  predicate GlobalOk(s: State) {
    |s.table| == BUCKETS && 0 <= s.tokens <= GLOBAL_MAX_TOKENS
  }

  // The clock has not gone back and the last packet is not too long ago.
  predicate Paced(s: State, c: Call) {
    s.last <= c.now <= s.last + GLOBAL_MAX_GAP
  }

  predicate AllPaced(s: State, calls: seq<Call>)
    requires |s.table| == BUCKETS
    decreases |calls|
  {
    calls == [] || (Paced(s, calls[0]) && AllPaced(After(s, calls[0]), calls[1..]))
  }

  lemma GlobalIs(s: State, c: Call)
    requires GlobalOk(s) && Paced(s, c)
    ensures var full := s.tokens + GLOBAL_REFILL_PER_SEC * (c.now - s.last);
      GlobalAt(s, c.now) == if full > GLOBAL_MAX_TOKENS then GLOBAL_MAX_TOKENS else full
  {
    OverflowBounds(c.now - s.last);
    RefilledIsMin(s.tokens, s.last, c.now, GLOBAL_REFILL_PER_SEC, GLOBAL_MAX_TOKENS);
  }

  // The global count stays between zero and its maximum, whoever sends.
  lemma GlobalKeeps(s: State, c: Call)
    requires GlobalOk(s) && Paced(s, c)
    ensures GlobalOk(After(s, c))
  {
    GlobalIs(s, c);
  }

  predicate BucketOk(s: State, i: nat)
    requires |s.table| == BUCKETS && i < BUCKETS
  {
    0 <= s.table[i].tokens <= MAX_TOKENS && s.table[i].last <= s.last
  }

  // The call reaches bucket i.
  predicate Reaches(s: State, c: Call, i: nat)
    requires |s.table| == BUCKETS
  {
    c.src % BUCKETS == i && GlobalAt(s, c.now) > 0
  }

  // A call that finds bucket i its own finds it refilled not too long ago.
  predicate PacedIn(s: State, c: Call, i: nat)
    requires |s.table| == BUCKETS && i < BUCKETS
  {
    && s.last <= c.now
    && (Reaches(s, c, i) && s.table[i].ip == c.src ==> c.now <= s.table[i].last + MAX_GAP)
  }

  predicate AllPacedIn(s: State, calls: seq<Call>, i: nat)
    requires |s.table| == BUCKETS && i < BUCKETS
    decreases |calls|
  {
    calls == [] || (PacedIn(s, calls[0], i) && AllPacedIn(After(s, calls[0]), calls[1..], i))
  }

  // The bucket as the packet finds it.
  lemma BucketIs(s: State, c: Call, i: nat)
    requires |s.table| == BUCKETS && i < BUCKETS && BucketOk(s, i) && PacedIn(s, c, i) && Reaches(s, c, i)
    ensures var b := s.table[i];
      var full := b.tokens + REFILL_PER_SEC * (c.now - b.last);
      BucketAt(b, c.src, c.now) == Bucket(c.src, if b.ip != c.src || full > MAX_TOKENS then MAX_TOKENS else full, c.now)
  {
    var b := s.table[i];
    if b.ip == c.src {
      OverflowBounds(c.now - b.last);
      RefilledIsMin(b.tokens, b.last, c.now, REFILL_PER_SEC, MAX_TOKENS);
    }
  }

  // What one call does to bucket i: its count stays between zero and the maximum.
  lemma BucketKeeps(s: State, c: Call, i: nat)
    requires |s.table| == BUCKETS && i < BUCKETS && BucketOk(s, i) && PacedIn(s, c, i)
    ensures BucketOk(After(s, c), i)
    ensures var b, b' := s.table[i], After(s, c).table[i];
      var taken := if c.src % BUCKETS == i && Step(s, c.src, c.now).1 then 1 else 0;
      && (!Reaches(s, c, i) ==> b' == b && taken == 0)
      && (Reaches(s, c, i) ==> b'.last == c.now && b'.tokens + taken <= MAX_TOKENS)
      && (Reaches(s, c, i) && b.ip == c.src ==> b'.tokens + taken <= b.tokens + REFILL_PER_SEC * (c.now - b.last))
  {
    if Reaches(s, c, i) { BucketIs(s, c, i); }
  }

  // ------------------------------------------------------------------
  // Nothing is refused while there is budget
  // ------------------------------------------------------------------

  // A call is allowed exactly if something is left of the global budget, and the
  // bucket is new to its source or has something left.
  lemma AllowedIff(s: State, c: Call, i: nat)
    requires GlobalOk(s) && Paced(s, c) && i == c.src % BUCKETS && BucketOk(s, i) && PacedIn(s, c, i)
    ensures Step(s, c.src, c.now).1 <==>
      && s.tokens + 200 * (c.now - s.last) > 0
      && (s.table[i].ip != c.src || s.table[i].tokens + 10 * (c.now - s.table[i].last) > 0)
  {
    GlobalIs(s, c);
    if Reaches(s, c, i) { BucketIs(s, c, i); }
  }

  // What the call leaves: both budgets refilled up to their maximum, one token less
  // in each if it was allowed, and no other bucket touched.
  lemma BudgetsAfter(s: State, c: Call, i: nat)
    requires GlobalOk(s) && Paced(s, c) && i == c.src % BUCKETS && BucketOk(s, i) && PacedIn(s, c, i)
    ensures var taken := if Step(s, c.src, c.now).1 then 1 else 0;
      var t, b := After(s, c), s.table[i];
      && t.tokens + taken == (if s.tokens + 200 * (c.now - s.last) > 500 then 500 else s.tokens + 200 * (c.now - s.last))
      && (t.tokens + taken > 0 ==>
            && t.table[i].ip == c.src && t.table[i].last == c.now
            && t.table[i].tokens + taken ==
               if b.ip != c.src || b.tokens + 10 * (c.now - b.last) > 20 then 20 else b.tokens + 10 * (c.now - b.last))
      && (t.tokens + taken <= 0 ==> t.table == s.table)
      && forall j :: 0 <= j < BUCKETS && j != i ==> t.table[j] == s.table[j]
  {
    GlobalIs(s, c);
    if Reaches(s, c, i) { BucketIs(s, c, i); }
  }

  // How many of the calls come from a source.
  function From(calls: seq<Call>, src: Word): nat {
    if calls == [] then 0 else From(Front(calls), src) + (if Last(calls).src == src then 1 else 0)
  }

  // All calls of one second, no two sources in one bucket, none from 0.0.0.0.
  predicate OneSecond(calls: seq<Call>, now: Word) {
    && (forall k :: 0 <= k < |calls| ==> calls[k].now == now && calls[k].src != 0)
    && (forall j, k :: 0 <= j < |calls| && 0 <= k < |calls| && calls[j].src % BUCKETS == calls[k].src % BUCKETS ==> calls[j].src == calls[k].src)
  }

  lemma {:induction false} FromFront(calls: seq<Call>, src: Word)
    ensures From(calls, src) <= |calls|
    ensures From(calls, src) > 0 <==> exists k :: 0 <= k < |calls| && calls[k].src == src
  {
    if calls != [] {
      FromFront(Front(calls), src);
      if k :| 0 <= k < |calls| && calls[k].src == src { assert k < |calls| - 1 ==> Front(calls)[k] == calls[k]; }
    }
  }

  // What is left after the calls so far: every one of them has been allowed.
  ghost predicate Spent(s: State, calls: seq<Call>, now: Word) {
    && |s.table| == BUCKETS
    && s.tokens == GLOBAL_MAX_TOKENS - |calls| && s.last == now
    && (forall k {:trigger calls[k]} :: 0 <= k < |calls| ==>
          s.table[calls[k].src % BUCKETS] == Bucket(calls[k].src, MAX_TOKENS - From(calls, calls[k].src), now))
    && (forall i {:trigger s.table[i]} :: 0 <= i < BUCKETS && (forall k :: 0 <= k < |calls| ==> calls[k].src % BUCKETS != i) ==>
          s.table[i] == Bucket(0, 0, 0))
  }

  // The bucket as the next call finds it.
  lemma BucketFound(s: State, calls: seq<Call>, c: Call, now: Word)
    requires OneSecond(calls + [c], now) && Spent(s, calls, now)
    ensures s.table[c.src % BUCKETS] ==
      if From(calls, c.src) > 0 then Bucket(c.src, MAX_TOKENS - From(calls, c.src), now) else Bucket(0, 0, 0)
  {
    var all := calls + [c];
    FromFront(calls, c.src);
    assert all[|calls|] == c && forall k :: 0 <= k < |calls| ==> all[k] == calls[k];
    if From(calls, c.src) > 0 {
      var k :| 0 <= k < |calls| && calls[k].src == c.src;
    } else {
      forall k | 0 <= k < |calls| ensures calls[k].src % BUCKETS != c.src % BUCKETS {
        assert all[k].src != all[|calls|].src;
      }
    }
  }

  // A call in the same second, with n of its source before it.
  lemma SameSecond(s: State, c: Call, n: nat)
    requires |s.table| == BUCKETS && s.tokens > 0 && s.last == c.now && c.src != 0 && n < 20
    requires s.table[c.src % BUCKETS] == if n > 0 then Bucket(c.src, MAX_TOKENS - n, c.now) else Bucket(0, 0, 0)
    ensures Step(s, c.src, c.now) ==
      (State(s.tokens - 1, c.now, s.table[c.src % BUCKETS := Bucket(c.src, MAX_TOKENS - n - 1, c.now)]), true)
  {
  }

  lemma SpentFacts(s: State, calls: seq<Call>, c: Call, now: Word)
    requires OneSecond(calls + [c], now) && Spent(s, calls, now)
    ensures |s.table| == BUCKETS && s.tokens == GLOBAL_MAX_TOKENS - |calls| && s.last == now == c.now && c.src != 0
  {
    assert (calls + [c])[|calls|] == c;
  }

  lemma SpentNext(s: State, calls: seq<Call>, c: Call, now: Word)
    requires OneSecond(calls + [c], now) && |calls| < 500 && From(calls, c.src) < 20 && Spent(s, calls, now)
    ensures |s.table| == BUCKETS && Step(s, c.src, now).1 && Spent(After(s, c), calls + [c], now)
  {
    hide Spent, OneSecond, Step;
    SpentFacts(s, calls, c, now);
    BucketFound(s, calls, c, now);
    SameSecond(s, c, From(calls, c.src));
    SpentUpdate(s, After(s, c), calls, c, now);
  }

  lemma SpentUpdate(s: State, t: State, calls: seq<Call>, c: Call, now: Word)
    requires OneSecond(calls + [c], now) && Spent(s, calls, now)
    requires t == State(s.tokens - 1, now, s.table[c.src % BUCKETS := Bucket(c.src, MAX_TOKENS - From(calls, c.src) - 1, now)])
    ensures Spent(t, calls + [c], now)
  {
    var all, i := calls + [c], c.src % BUCKETS;
    assert all[|calls|] == c && Front(all) == calls && Last(all) == c;
    assert forall k :: 0 <= k < |calls| ==> all[k] == calls[k];
    forall k | 0 <= k < |all| ensures t.table[all[k].src % BUCKETS] == Bucket(all[k].src, MAX_TOKENS - From(all, all[k].src), now) {
      assert all[k].src % BUCKETS == i ==> all[k].src == all[|calls|].src;
    }
    forall j | 0 <= j < BUCKETS && (forall k :: 0 <= k < |all| ==> all[k].src % BUCKETS != j) ensures t.table[j] == Bucket(0, 0, 0) {
      assert all[|calls|].src % BUCKETS != j;
      forall k | 0 <= k < |calls| ensures calls[k].src % BUCKETS != j { assert all[k] == calls[k]; }
    }
  }

  lemma {:induction false} FirstSecondSpent(calls: seq<Call>, now: Word)
    requires OneSecond(calls, now) && |calls| <= 500
    requires forall src: Word :: From(calls, src) <= 20
    ensures Spent(AfterAll(Start(now), calls), calls, now)
    ensures calls != [] ==> Step(AfterAll(Start(now), Front(calls)), Last(calls).src, now).1
  {
    if calls != [] {
      var front, c := Front(calls), Last(calls);
      assert calls == front + [c];
      forall src: Word ensures From(front, src) <= 20 { assert From(calls, src) <= 20; }
      forall j, k | 0 <= j < |front| && 0 <= k < |front| && front[j].src % BUCKETS == front[k].src % BUCKETS
        ensures front[j].src == front[k].src
      {
        assert front[j] == calls[j] && front[k] == calls[k];
      }
      FirstSecondSpent(front, now);
      assert From(calls, c.src) <= 20;
      AfterOneMore(Start(now), front, c);
      SpentNext(AfterAll(Start(now), front), front, c, now);
    }
  }

  // In the first second, up to 500 calls, up to 20 from each source and the sources
  // in buckets of their own, are allowed one and all.
  lemma {:induction false} FirstSecondAllowed(calls: seq<Call>, now: Word, k: nat)
    requires OneSecond(calls, now) && |calls| <= 500 && k < |calls|
    requires forall src: Word :: From(calls, src) <= 20
    ensures Step(AfterAll(Start(now), calls[..k]), calls[k].src, now).1
  {
    var some := calls[..k + 1];
    assert Front(some) == calls[..k] && Last(some) == calls[k];
    forall src: Word ensures From(some, src) <= 20 {
      FromPrefix(calls, k + 1, src);
      assert From(calls, src) <= 20;
    }
    FirstSecondSpent(some, now);
  }

  lemma {:induction false} FromPrefix(calls: seq<Call>, k: nat, src: Word)
    requires k <= |calls|
    ensures From(calls[..k], src) <= From(calls, src)
  {
    if k == |calls| {
      assert calls[..k] == calls;
    } else {
      FromPrefix(Front(calls), k, src);
      assert Front(calls)[..k] == calls[..k];
    }
  }

  // Calls allowed in a run.
  function AllowedCount(s: State, calls: seq<Call>): nat
    requires |s.table| == BUCKETS
    decreases |calls|
  {
    if calls == [] then 0
    else (if Step(s, calls[0].src, calls[0].now).1 then 1 else 0) + AllowedCount(After(s, calls[0]), calls[1..])
  }

  // The moment of the call before k; for 0 the state's own.
  function Moment(s: State, calls: seq<Call>, k: nat): Word
    requires k <= |calls|
  {
    if k == 0 then s.last else calls[k - 1].now
  }

  // The calls allowed from that one on.
  function AllowedSince(s: State, calls: seq<Call>, k: nat): nat
    requires |s.table| == BUCKETS && k <= |calls|
  {
    if k == 0 then AllowedCount(s, calls) else AllowedCount(AfterAll(s, calls[..k - 1]), calls[k - 1..])
  }

  lemma SinceShifts(s: State, calls: seq<Call>, k: nat)
    requires |s.table| == BUCKETS && calls != [] && 0 < k <= |calls[1..]|
    ensures AllowedSince(s, calls, k + 1) == AllowedSince(After(s, calls[0]), calls[1..], k)
    ensures Moment(s, calls, k + 1) == Moment(After(s, calls[0]), calls[1..], k)
  {
    assert calls[..k][0] == calls[0] && calls[..k][1..] == calls[1..][..k - 1];
    assert calls[k..] == calls[1..][k - 1..];
  }

  // What is left of the global budget is exactly what the calls allowed since some
  // moment have left of what there was then -- all of it, or what the run began
  // with -- and 200 for every second since.
  lemma {:induction false} GlobalBudget(s: State, calls: seq<Call>) returns (k: nat)
    requires GlobalOk(s) && AllPaced(s, calls)
    ensures k <= |calls| && GlobalOk(AfterAll(s, calls)) && AfterAll(s, calls).last >= s.last
    ensures AfterAll(s, calls).tokens ==
      (if k == 0 then s.tokens else 500) + 200 * (AfterAll(s, calls).last - Moment(s, calls, k)) - AllowedSince(s, calls, k)
    decreases |calls|
  {
    if calls == [] {
      k := 0;
    } else {
      var c, rest := calls[0], calls[1..];
      GlobalIs(s, c);
      k := GlobalBudget(After(s, c), rest);
      if k > 0 {
        SinceShifts(s, calls, k);
        k := k + 1;
      } else if s.tokens + 200 * (c.now - s.last) > 500 {
        assert calls[..0] == [] && calls[0..] == calls;
        k := 1;
      }
    }
  }

  // From the start, a call whose own bucket has something left is refused only if
  // the calls allowed since some moment have used up 500 and 200 for every second
  // since: the bound on all calls has been reached.
  lemma {:induction false} RefusedAtTheBound(now: Word, calls: seq<Call>, c: Call, i: nat) returns (k: nat)
    requires AllPaced(Start(now), calls) && i == c.src % BUCKETS
    requires var u := AfterAll(Start(now), calls);
      && Paced(u, c) && BucketOk(u, i) && PacedIn(u, c, i) && !Step(u, c.src, c.now).1
      && (u.table[i].ip != c.src || u.table[i].tokens + 10 * (c.now - u.table[i].last) > 0)
    ensures k <= |calls|
    ensures AllowedSince(Start(now), calls, k) >= 500 + 200 * (c.now - Moment(Start(now), calls, k))
  {
    k := GlobalBudget(Start(now), calls);
    AllowedIff(AfterAll(Start(now), calls), c, i);
  }

  predicate Within(c: Call, t0: Word, t1: Word) {
    t0 <= c.now <= t1
  }

  // Calls allowed in the seconds t0..t1.
  function Allowed(s: State, calls: seq<Call>, t0: Word, t1: Word): nat
    requires |s.table| == BUCKETS
    decreases |calls|
  {
    if calls == [] then 0
    else (if Within(calls[0], t0, t1) && Step(s, calls[0].src, calls[0].now).1 then 1 else 0) + Allowed(After(s, calls[0]), calls[1..], t0, t1)
  }

  // Nothing more is allowed in a window that has passed.
  lemma {:induction false} NoneLater(s: State, calls: seq<Call>, t0: Word, t1: Word)
    requires |s.table| == BUCKETS && AllPaced(s, calls) && t1 < s.last
    ensures Allowed(s, calls, t0, t1) == 0
    decreases |calls|
  {
    if calls != [] {
      NoneLater(After(s, calls[0]), calls[1..], t0, t1);
    }
  }

  lemma {:induction false} AllowedFrom(s: State, calls: seq<Call>, t0: Word, t1: Word)
    requires GlobalOk(s) && AllPaced(s, calls) && s.last <= t1
    ensures Allowed(s, calls, t0, t1) <= s.tokens + GLOBAL_REFILL_PER_SEC * (t1 - s.last)
    decreases |calls|
  {
    if calls != [] {
      var c := calls[0];
      GlobalIs(s, c);
      if c.now <= t1 {
        AllowedFrom(After(s, c), calls[1..], t0, t1);
      } else {
        NoneLater(After(s, c), calls[1..], t0, t1);
      }
    }
  }

  // In any seconds t0..t1 of any run, at most 500 + 200 * (t1 - t0) calls.
  lemma {:induction false} GlobalBound(s: State, calls: seq<Call>, t0: Word, t1: Word)
    requires GlobalOk(s) && AllPaced(s, calls) && t0 <= t1
    ensures Allowed(s, calls, t0, t1) <= GLOBAL_MAX_TOKENS + GLOBAL_REFILL_PER_SEC * (t1 - t0)
    decreases |calls|
  {
    if calls != [] {
      var c := calls[0];
      GlobalIs(s, c);
      if c.now < t0 {
        GlobalBound(After(s, c), calls[1..], t0, t1);
      } else if c.now <= t1 {
        AllowedFrom(After(s, c), calls[1..], t0, t1);
      } else {
        NoneLater(After(s, c), calls[1..], t0, t1);
      }
    }
  }

  // ------------------------------------------------------------------
  // One bucket
  // ------------------------------------------------------------------

  function AllowedIn(s: State, calls: seq<Call>, i: nat, t0: Word, t1: Word): nat
    requires |s.table| == BUCKETS
    decreases |calls|
  {
    if calls == [] then 0
    else
      (if calls[0].src % BUCKETS == i && Within(calls[0], t0, t1) && Step(s, calls[0].src, calls[0].now).1 then 1 else 0)
        + AllowedIn(After(s, calls[0]), calls[1..], i, t0, t1)
  }

  // How often bucket i changes hands in the seconds t0..t1.
  function Changes(s: State, calls: seq<Call>, i: nat, t0: Word, t1: Word): nat
    requires |s.table| == BUCKETS && i < BUCKETS
    decreases |calls|
  {
    if calls == [] then 0
    else
      (if Within(calls[0], t0, t1) && Reaches(s, calls[0], i) && s.table[i].ip != calls[0].src then 1 else 0)
        + Changes(After(s, calls[0]), calls[1..], i, t0, t1)
  }

  lemma {:induction false} NoneLaterIn(s: State, calls: seq<Call>, i: nat, t0: Word, t1: Word)
    requires |s.table| == BUCKETS && i < BUCKETS && AllPacedIn(s, calls, i) && t1 < s.last
    ensures AllowedIn(s, calls, i, t0, t1) == 0
    decreases |calls|
  {
    if calls != [] {
      NoneLaterIn(After(s, calls[0]), calls[1..], i, t0, t1);
    }
  }

  lemma {:induction false} AllowedInFrom(s: State, calls: seq<Call>, i: nat, t0: Word, t1: Word)
    requires |s.table| == BUCKETS && i < BUCKETS && BucketOk(s, i) && AllPacedIn(s, calls, i) && t0 <= s.last <= t1
    ensures AllowedIn(s, calls, i, t0, t1) <= s.table[i].tokens + MAX_TOKENS * Changes(s, calls, i, t0, t1) + REFILL_PER_SEC * (t1 - s.table[i].last)
    decreases |calls|
  {
    if calls != [] {
      var c := calls[0];
      BucketKeeps(s, c, i);
      if c.now <= t1 {
        AllowedInFrom(After(s, c), calls[1..], i, t0, t1);
      } else {
        NoneLaterIn(After(s, c), calls[1..], i, t0, t1);
      }
    }
  }

  // In any seconds t0..t1 of any run, at most 20 * (1 + owner changes) + 10 * (t1 - t0)
  // calls through one bucket, whatever passes through the others.
  lemma {:induction false} BucketBound(s: State, calls: seq<Call>, i: nat, t0: Word, t1: Word)
    requires |s.table| == BUCKETS && i < BUCKETS && BucketOk(s, i) && AllPacedIn(s, calls, i) && t0 <= t1
    ensures AllowedIn(s, calls, i, t0, t1) <= MAX_TOKENS * (1 + Changes(s, calls, i, t0, t1)) + REFILL_PER_SEC * (t1 - t0)
    decreases |calls|
  {
    if calls != [] {
      var c := calls[0];
      BucketKeeps(s, c, i);
      if c.now > t1 {
        NoneLaterIn(After(s, c), calls[1..], i, t0, t1);
      } else if c.now >= t0 && Reaches(s, c, i) {
        AllowedInFrom(After(s, c), calls[1..], i, t0, t1);
      } else {
        BucketBound(After(s, c), calls[1..], i, t0, t1);
      }
    }
  }

  // ------------------------------------------------------------------
  // Collisions
  // ------------------------------------------------------------------

  // What source a finds in its bucket i at now2 when b has taken the bucket over
  // at now1: a full bucket.  That is never less than its own bucket would have
  // held, and it is more exactly when its own would not have been full.
  lemma CollisionIff(s: State, a: Word, b: Word, i: nat, now1: Word, now2: Word)
    requires |s.table| == BUCKETS && i < BUCKETS && BucketOk(s, i)
    requires a != b && a % BUCKETS == b % BUCKETS == i && s.table[i].ip == a
    requires s.last <= now1 <= now2 <= s.table[i].last + MAX_GAP && GlobalAt(s, now1) > 0
    ensures var shared := BucketAt(After(s, Call(b, now1)).table[i], a, now2).tokens;
      var alone := BucketAt(s.table[i], a, now2).tokens;
      && shared == MAX_TOKENS >= alone
      && (shared > alone <==> s.table[i].tokens + REFILL_PER_SEC * (now2 - s.table[i].last) < MAX_TOKENS)
  {
    var own := s.table[i];
    OverflowBounds(now2 - own.last);
    RefilledIsMin(own.tokens, own.last, now2, REFILL_PER_SEC, MAX_TOKENS);
    assert After(s, Call(b, now1)).table[i].ip == b;
  }

  function Repeated(c: Call, k: nat): seq<Call> {
    seq(k, _ => c)
  }

  lemma {:induction false} AfterOneMore(s: State, calls: seq<Call>, c: Call)
    requires |s.table| == BUCKETS
    ensures AfterAll(s, calls + [c]) == After(AfterAll(s, calls), c)
    decreases |calls|
  {
    if calls == [] {
      assert (calls + [c])[1..] == [];
    } else {
      assert (calls + [c])[1..] == calls[1..] + [c];
      AfterOneMore(After(s, calls[0]), calls[1..], c);
    }
  }

  // A source that sends k packets in the first second.
  lemma {:induction false} Draining(now: Word, a: Word, k: nat)
    requires a != 0 && 0 < k <= MAX_TOKENS
    ensures var t := AfterAll(Start(now), Repeated(Call(a, now), k));
      t.tokens == GLOBAL_MAX_TOKENS - k && t.last == now && t.table[a % BUCKETS] == Bucket(a, MAX_TOKENS - k, now)
  {
    var c := Call(a, now);
    assert Repeated(c, k) == Repeated(c, k - 1) + [c];
    AfterOneMore(Start(now), Repeated(c, k - 1), c);
    if k == 1 {
      assert Repeated(c, 0) == [];
    } else {
      Draining(now, a, k - 1);
    }
  }

  // From the start, in one second: a source that has used up its twenty tokens is
  // refused, but not once a colliding source has sent a packet in between.
  lemma {:induction false} CollisionRefills(now: Word, a: Word, b: Word)
    requires a != 0 && a != b && a % BUCKETS == b % BUCKETS
    ensures var s := AfterAll(Start(now), Repeated(Call(a, now), MAX_TOKENS));
      && !Step(s, a, now).1
      && Step(s, b, now).1 && Step(After(s, Call(b, now)), a, now).1
  {
    Draining(now, a, MAX_TOKENS);
    var s := AfterAll(Start(now), Repeated(Call(a, now), MAX_TOKENS));
    assert After(s, Call(b, now)).table[a % BUCKETS] == Bucket(b, MAX_TOKENS - 1, now);
  }

  // Both bounds hold of every run from the start.
  lemma {:induction false} BoundsFromStart(now: Word, calls: seq<Call>, i: nat, t0: Word, t1: Word)
    requires t0 <= t1 && i < BUCKETS
    ensures AllPaced(Start(now), calls) ==>
      Allowed(Start(now), calls, t0, t1) <= GLOBAL_MAX_TOKENS + GLOBAL_REFILL_PER_SEC * (t1 - t0)
    ensures AllPacedIn(Start(now), calls, i) ==>
      AllowedIn(Start(now), calls, i, t0, t1) <= MAX_TOKENS * (1 + Changes(Start(now), calls, i, t0, t1)) + REFILL_PER_SEC * (t1 - t0)
  {
    if AllPaced(Start(now), calls) { GlobalBound(Start(now), calls, t0, t1); }
    if AllPacedIn(Start(now), calls, i) { BucketBound(Start(now), calls, i, t0, t1); }
  }
}
