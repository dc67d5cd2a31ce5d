// What the proxy's steps mean to its clients, said of the entries on a name's own
// path and of the answers stored for it.
module ProxyLaws {
  import opened Prelude
  import opened Names
  import opened Question
  import opened Forest
  import opened Verdict
  import opened Decisions
  import opened AskOnce
  import opened M = ProxyModel
  import P = ProbeTable
  import V = VerdictCache
  import A = AnswerCache
  import W = AnswerWire

  // ------------------------------------------------------------------
  // Names
  // ------------------------------------------------------------------

  ghost predicate NoEntryOn(t: Table, p: Path) {
    forall j :: 0 < j <= |p| ==> p[..j] !in t
  }

  ghost predicate AllowedOn(t: Table, p: Path) {
    exists j :: 0 < j <= |p| && EntryAt(t, p, j, Allowed)
  }

  // The deepest BLOCKED entry on p is at depth b.
  ghost predicate DeepestBlock(t: Table, p: Path, b: nat) {
    0 < b <= |p| && EntryAt(t, p, b, Blocked) && forall j :: b < j <= |p| ==> !EntryAt(t, p, j, Blocked)
  }

  // There is a BLOCKED and no ALLOWED entry on p, and the deepest BLOCKED one asks
  // for that TTL: its own, or a minute.
  ghost predicate BlockedFor(t: Table, p: Path, ttl: nat) {
    && !AllowedOn(t, p)
    && exists b: nat :: DeepestBlock(t, p, b) && ttl == if t[p[..b]].ttl == 0 then 60 else t[p[..b]].ttl
  }

  ghost predicate BlockedOn(t: Table, p: Path) {
    exists ttl: nat :: BlockedFor(t, p, ttl)
  }

  lemma AtMeans(t: Table, p: Path)
    ensures At(t, p).NoMatch? <==> NoEntryOn(t, p)
    ensures At(t, p).Match? && At(t, p).status == Allowed <==> AllowedOn(t, p)
    ensures At(t, p).Match? && At(t, p).status == Blocked <==> BlockedOn(t, p)
    ensures forall ttl: nat :: BlockedFor(t, p, ttl) ==> ttl == Effective(At(t, p).ttl)
    ensures BlockedOn(t, p) ==> BlockedFor(t, p, Effective(At(t, p).ttl))
  {
    AtIs(t, p);
    forall ttl: nat | BlockedFor(t, p, ttl) ensures At(t, p).Match? && At(t, p).status == Blocked && ttl == Effective(At(t, p).ttl) {
      var b: nat :| DeepestBlock(t, p, b) && ttl == if t[p[..b]].ttl == 0 then 60 else t[p[..b]].ttl;
      DeepestIs(t, p, |p|, Blocked, b);
    }
    if At(t, p).Match? && At(t, p).status == Blocked {
      assert DeepestBlock(t, p, Deepest(t, p, |p|, Blocked));
      assert BlockedFor(t, p, Effective(At(t, p).ttl));
    }
  }

  // ------------------------------------------------------------------
  // What a client gets
  // ------------------------------------------------------------------

  // An address query for a name with an ALLOWED entry on its path, or with none.
  ghost predicate Servable(t: Table, p: Path, qtype: nat) {
    (qtype == 1 || qtype == 28) && (AllowedOn(t, p) || NoEntryOn(t, p))
  }

  // An answer is stored for k and has not been untouched for longer than its TTL,
  // in the 64 bits of the clock.
  ghost predicate LiveAnswer(a: A.ASlots, k: A.Key, payload: A.Payload, ttl: nat, now: P.U64) {
    exists i :: 0 <= i < |a| && a[i].Used? && a[i].key == k && a[i].value == payload && a[i].ttl == ttl
      && now <= (a[i].stamp + ttl * 1_000_000_000) % 0x1_0000_0000_0000_0000
  }

  // It can be put behind the request in the response buffer.
  ghost predicate CanServe(t: Table, a: A.ASlots, d: Name, qtype: nat, request: Packet, now: P.U64, payload: A.Payload, ttl: nat) {
    && Servable(t, TreePath(d), qtype) && |d| <= 95
    && LiveAnswer(a, A.Key(d, qtype), payload, ttl, now)
    && |request| + payload.numRecords * (12 + payload.recordBytes) <= 4128
  }

  // The name is not blocked and nothing stored can be served.
  ghost predicate AsksUpstream(t: Table, a: A.ASlots, d: Name, qtype: nat, request: Packet, now: P.U64) {
    && !BlockedOn(t, TreePath(d))
    && forall payload: A.Payload, ttl: nat :: !CanServe(t, a, d, qtype, request, now, payload, ttl)
  }

  ghost predicate ReplyFor(t: Table, a: A.ASlots, d: Name, qtype: nat, request: Packet, upstream: Packet, now: P.U64, reply: Reply) {
    match reply
    case Sinkhole(ttl) => BlockedFor(t, TreePath(d), ttl)
    case Cached(payload, ttl) => CanServe(t, a, d, qtype, request, now, payload, ttl)
    case Relayed(packet) => packet == upstream != [] && AsksUpstream(t, a, d, qtype, request, now)
    case Silent => upstream == [] && AsksUpstream(t, a, d, qtype, request, now)
  }

  // A name is never both blocked and served, so each reply has exactly its cause.
  lemma OneReply(t: Table, a: A.ASlots, d: Name, qtype: nat, request: Packet, upstream: Packet, now: P.U64, reply: Reply)
    requires ReplyFor(t, a, d, qtype, request, upstream, now, reply)
    ensures reply.Sinkhole? <==> BlockedOn(t, TreePath(d))
    ensures reply.Cached? <==> exists payload: A.Payload, ttl: nat :: CanServe(t, a, d, qtype, request, now, payload, ttl)
    ensures AsksUpstream(t, a, d, qtype, request, now) ==> reply == if upstream == [] then Silent else Relayed(upstream)
  {
    AtMeans(t, TreePath(d));
  }

  lemma LookAnswerMeans(a: A.ASlots, hash: A.Key -> nat, k: A.Key, now: P.U64)
    requires AnswersOk(a, hash)
    ensures var hit := LookAnswer(a, hash, k, now).1;
      && (hit.Some? ==> |k.domain| <= 95 && LiveAnswer(a, k, hit.value.0, hit.value.1, now))
      && forall payload: A.Payload, ttl: nat :: |k.domain| <= 95 && LiveAnswer(a, k, payload, ttl, now) ==> hit == Some((payload, ttl))
  {
    if |k.domain| <= 95 {
      var lay := A.Cyclic(hash, |a|);
      P.HitIffLive(a, lay, k, now, true);
      var hit := LookAnswer(a, hash, k, now).1;
      assert hit == P.Looked(a, lay.order(k), k, hash(k), now, true).1;
      if hit.Some? {
        var i :| 0 <= i < |a| && a[i].Used? && a[i].key == k && !P.Expired(a[i], now);
        assert hit == Some((a[i].value, a[i].ttl));
      }
    }
  }

  lemma ServeMeans(h: Hashes, s: State, d: Name, qtype: nat, eligible: bool, request: Packet, upstream: Packet, env: Env)
    requires Sized(s) && AnswersOk(s.answers, h.answer)
    ensures var k := A.Key(d, qtype);
      match Serve(h, s, k, eligible, request, upstream, env).1
      case Sinkhole(ttl) => false
      case Cached(payload, ttl) =>
        eligible && |d| <= 95 && LiveAnswer(s.answers, k, payload, ttl, env.probed)
          && |request| + payload.numRecords * (12 + payload.recordBytes) <= 4128
      case Relayed(packet) => packet == upstream != [] && NothingToServe(s.answers, d, qtype, eligible, request, env.probed)
      case Silent => upstream == [] && NothingToServe(s.answers, d, qtype, eligible, request, env.probed)
  {
    hide LookAnswer, StoreAnswer, LiveAnswer, W.Cacheable, AnswersOk;
    LookAnswerMeans(s.answers, h.answer, A.Key(d, qtype), env.probed);
  }

  ghost predicate NothingToServe(a: A.ASlots, d: Name, qtype: nat, eligible: bool, request: Packet, now: P.U64) {
    eligible && |d| <= 95 ==>
      forall payload: A.Payload, ttl: nat :: LiveAnswer(a, A.Key(d, qtype), payload, ttl, now) ==>
        |request| + payload.numRecords * (12 + payload.recordBytes) > 4128
  }

  // Every reply has its cause in the tree and in the answers stored at the time: a
  // blocked name is answered with the sinkhole, a stored answer is served whenever
  // it may be, and everything else is what came from upstream.
  lemma ReplyMeans(h: Hashes, s: State, d: Name, qtype: nat, request: Packet, upstream: Packet, env: Env, lossless: bool)
    requires Inv(h, s, lossless)
    ensures Sized(s)
    ensures ReplyFor(s.table, s.answers, d, qtype, request, upstream, env.probed, Answer(h, s, d, qtype, request, upstream, env).1)
  {
    hide CheckDomain, Meet, Serve, At, LiveAnswer, AnswersOk, VerdictsOk, Coherent, AllSafe, BlockedFor, NoEntryOn, AllowedOn;
    SizedSound(h, s);
    CheckDomainIsLookup(h, s, d, env, lossless);
    AtMeans(s.table, TreePath(d));
    var (s1, c) := CheckDomain(h, s, d, env);
    SizedSound(h, s1);
    AnswersSound(h, s1);
    var s2 := if c.NoMatch? then Meet(s1, d, env) else s1;
    MeetAnswers(s1, d, env);
    ServeMeans(h, s2, d, qtype, Eligible(c, qtype), request, upstream, env);
  }

  lemma MeetAnswers(s: State, d: Name, env: Env)
    ensures Meet(s, d, env).answers == s.answers && Meet(s, d, env).verdicts == s.verdicts
  {
  }

  // Over every run from a fresh start.
  lemma RepliesOverRuns(h: Hashes, s: State, steps: seq<Step>, d: Name, qtype: nat, request: Packet, upstream: Packet, env: Env, lossless: bool)
    requires Fresh(s) && Feasible(h, s, steps, lossless)
    ensures var t := Run(h, s, steps);
      ReplyFor(t.table, t.answers, d, qtype, request, upstream, env.probed, Answer(h, t, d, qtype, request, upstream, env).1)
  {
    FreshInv(h, s);
    RunKeeps(h, s, steps, lossless);
    ReplyMeans(h, Run(h, s, steps), d, qtype, request, upstream, env, lossless);
  }

  // ------------------------------------------------------------------
  // What a query leaves behind
  // ------------------------------------------------------------------

  // A verdict on d is cached and has not been untouched for longer than its TTL.
  ghost predicate LiveVerdict(v: V.VSlots, d: Name, now: P.U64) {
    && |d| <= 253
    && exists i :: 0 <= i < |v| && v[i].Used? && v[i].key == d && now <= (v[i].stamp + v[i].ttl * 1_000_000_000) % 0x1_0000_0000_0000_0000
  }

  // A name without an entry on its path gets a REVIEW entry of its own, if it has a
  // place and the allocations succeed.  Any other is counted, unless its verdict is
  // cached.
  ghost predicate QueryTable(t: Table, v: V.VSlots, u: Table, d: Name, env: Env) {
    var p := TreePath(d);
    if NoEntryOn(t, p) then
      u == if p != [] && env.review.NoFault? then t[p := Entry(Review, 0, 1, env.flagged, 1, env.score, Some(env.reason))] else t
    else
      u == if LiveVerdict(v, d, env.looked) then t else Touch(t, p, env.seen)
  }

  lemma LookVerdictMeans(v: V.VSlots, hash: Name -> nat, d: Name, now: P.U64)
    requires VerdictsOk(v, hash)
    ensures LookVerdict(v, hash, d, now).1.Some? <==> LiveVerdict(v, d, now)
  {
    if |d| <= 253 {
      var lay := V.Linear(hash, |v|);
      P.HitIffLive(v, lay, d, now, false);
      assert LookVerdict(v, hash, d, now).1 == P.Looked(v, lay.order(d), d, hash(d), now, false).1;
    }
  }

  // Such a name is asked about, once, if a permit is free and a thread can be made;
  // without a permit it stays new, without a thread it stays pending.
  ghost predicate QueryAsks(s: State, s': State, d: Name, env: Env) {
    if NoEntryOn(s.table, TreePath(d)) && d !in s.asked && env.claimed && |s.running| < 8 then
      s'.asked == s.asked[d := Pending] && s'.running == if env.spawned then s.running + {d} else s.running
    else
      s'.asked == s.asked && s'.running == s.running
  }

  lemma MeetMeans(s: State, d: Name, env: Env)
    requires NoEntryOn(s.table, TreePath(d))
    ensures forall v :: QueryTable(s.table, v, Meet(s, d, env).table, d, env)
    ensures QueryAsks(s, Meet(s, d, env), d, env)
  {
    var p := TreePath(d);
    if p != [] { assert p[..|p|] == p; }
    assert p != [] ==> s.table - {p} == s.table;
    if d !in s.asked { assert s.asked[d := Pending] - {d} == s.asked; }
  }

  lemma QueryEffects(h: Hashes, s: State, d: Name, qtype: nat, request: Packet, upstream: Packet, env: Env, lossless: bool)
    requires Inv(h, s, lossless)
    ensures Sized(s)
    ensures var s' := Answer(h, s, d, qtype, request, upstream, env).0;
      QueryTable(s.table, s.verdicts, s'.table, d, env) && QueryAsks(s, s', d, env)
  {
    hide CheckDomain, Meet, Serve, At, AnswersOk, VerdictsOk, Coherent, AllSafe, NoEntryOn, AllowedOn, BlockedFor, Touch, LiveVerdict;
    SizedSound(h, s);
    CheckDomainIsLookup(h, s, d, env, lossless);
    CheckDomainSound(h, s, d, env);
    CheckCounts(h, s, d, env);
    AtMeans(s.table, TreePath(d));
    var (s1, c) := CheckDomain(h, s, d, env);
    AtMeans(s1.table, TreePath(d));
    SizedSound(h, s1);
    AnswersSound(h, s1);
    var s2 := if c.NoMatch? then Meet(s1, d, env) else s1;
    MeetAnswers(s1, d, env);
    if c.NoMatch? {
      UntouchedIfNone(s.table, TreePath(d), env.seen);
      MeetMeans(s1, d, env);
    }
    ServeKeeps(h, s2, A.Key(d, qtype), Eligible(c, qtype), request, upstream, env);
  }

  lemma CheckCounts(h: Hashes, s: State, d: Name, env: Env)
    requires Sound(h, s)
    ensures Sized(s)
    ensures CheckDomain(h, s, d, env).0.table ==
      if LiveVerdict(s.verdicts, d, env.looked) then s.table else Touch(s.table, TreePath(d), env.seen)
  {
    hide LookVerdict, StoreVerdict, Touch, At, LiveVerdict;
    LookVerdictMeans(s.verdicts, h.verdict, d, env.looked);
  }

  lemma UntouchedIfNone(t: Table, p: Path, seen: nat)
    requires NoEntryOn(t, p)
    ensures Touch(t, p, seen) == t
  {
    TouchCounts(t, p, seen);
  }

  // What came from upstream for a servable query is stored, and found until its
  // least TTL has passed; other queries store nothing.
  lemma QueryStores(h: Hashes, s: State, d: Name, qtype: nat, request: Packet, upstream: Packet, env: Env, now: P.U64, lossless: bool)
    requires Inv(h, s, lossless)
    ensures Sized(s)
    ensures var (s', reply) := Answer(h, s, d, qtype, request, upstream, env);
      var k := A.Key(d, qtype);
      && OnlyNew(s.answers, s'.answers, k)
      && (!Servable(s.table, TreePath(d), qtype) ==> s'.answers == s.answers)
      && (W.Cacheable(upstream, qtype).Some? && Servable(s.table, TreePath(d), qtype) && |d| <= 95 && reply == Relayed(upstream) ==>
            var (payload, ttl) := W.Cacheable(upstream, qtype).value;
            env.filled + ttl * 1_000_000_000 < 0x1_0000_0000_0000_0000 ==>
              LookAnswer(s'.answers, h.answer, k, now).1 ==
                if now <= env.filled + ttl * 1_000_000_000 then Some((payload, ttl)) else None)
  {
    hide CheckDomain, Meet, LookAnswer, StoreAnswer, At, W.Cacheable, AnswersOk, VerdictsOk, Coherent, AllSafe, NoEntryOn, AllowedOn, BlockedFor, OnlyNew;
    SizedSound(h, s);
    CheckDomainIsLookup(h, s, d, env, lossless);
    AtMeans(s.table, TreePath(d));
    var (s1, c) := CheckDomain(h, s, d, env);
    SizedSound(h, s1);
    AnswersSound(h, s1);
    var s2 := if c.NoMatch? then Meet(s1, d, env) else s1;
    MeetAnswers(s1, d, env);
    var k := A.Key(d, qtype);
    ServeKeeps(h, s2, k, Eligible(c, qtype), request, upstream, env);
    NothingIsNew(s.answers, k);
    if Eligible(c, qtype) && upstream != [] && W.Cacheable(upstream, qtype).Some? && |d| <= 95 {
      LookAnswerKeeps(s2.answers, h.answer, k, env.probed);
      StoredIsFound(LookAnswer(s2.answers, h.answer, k, env.probed).0, h.answer, d, qtype, upstream, env.filled, now);
    }
  }

  lemma NothingIsNew(a: A.ASlots, k: A.Key)
    ensures OnlyNew(a, a, k)
  {
  }

  lemma StoredIsFound(a: A.ASlots, hash: A.Key -> nat, d: Name, qtype: nat, upstream: Packet, filled: P.U64, now: P.U64)
    requires AnswersOk(a, hash) && |d| <= 95 && W.Cacheable(upstream, qtype).Some?
    ensures var (payload, ttl) := W.Cacheable(upstream, qtype).value;
      filled + ttl * 1_000_000_000 < 0x1_0000_0000_0000_0000 ==>
        LookAnswer(StoreAnswer(a, hash, A.Key(d, qtype), payload, ttl, filled), hash, A.Key(d, qtype), now).1 ==
          if now <= filled + ttl * 1_000_000_000 then Some((payload, ttl)) else None
  {
    var (payload, ttl) := W.Cacheable(upstream, qtype).value;
    CacheableAccepted(upstream, qtype, d);
    var k := A.Key(d, qtype);
    var lay := A.Cyclic(hash, |a|);
    var e := P.Used(k, hash(k), filled, ttl, payload);
    if filled + ttl * 1_000_000_000 < 0x1_0000_0000_0000_0000 {
      P.InsertThenLookup(a, lay, e, now, true);
    }
  }

  lemma CacheableAccepted(upstream: Packet, qtype: nat, d: Name)
    requires W.Cacheable(upstream, qtype).Some? && |d| <= 95
    ensures var (payload, ttl) := W.Cacheable(upstream, qtype).value; A.Accepts(d, payload, ttl)
  {
    hide W.Collected, W.MinTtl;
    W.CollectedMatches(upstream, qtype);
    CacheableIsOk(upstream, qtype);
  }

  // A decision the verdict cache did not know is cached: a block for the TTL its
  // response carries, an ALLOWED for five minutes; anything else is not.
  lemma CheckCaches(h: Hashes, s: State, d: Name, env: Env, now: P.U64, ttl: nat, lossless: bool)
    requires Inv(h, s, lossless) && |d| <= 253 && LookVerdict(s.verdicts, h.verdict, d, env.looked).1.None?
    ensures Sized(s)
    ensures var p := TreePath(d);
      var v := CheckDomain(h, s, d, env).0.verdicts;
      && (BlockedFor(s.table, p, ttl) && env.stored + ttl * 1_000_000_000 < 0x1_0000_0000_0000_0000 ==>
            LookVerdict(v, h.verdict, d, now).1 == if now <= env.stored + ttl * 1_000_000_000 then Some((V.Block, ttl)) else None)
      && (AllowedOn(s.table, p) && env.stored + 300_000_000_000 < 0x1_0000_0000_0000_0000 ==>
            LookVerdict(v, h.verdict, d, now).1 == if now <= env.stored + 300_000_000_000 then Some((V.Allow, 300)) else None)
      && (!BlockedOn(s.table, p) && !AllowedOn(s.table, p) ==> v == LookVerdict(s.verdicts, h.verdict, d, env.looked).0)
  {
    hide LookVerdict, StoreVerdict, At, Coherent, AllSafe, AnswersOk, BlockedFor, AllowedOn, NoEntryOn;
    SizedSound(h, s);
    AtMeans(s.table, TreePath(d));
    VerdictsSound(h, s);
    LookVerdictStores(s.verdicts, h.verdict, d, env.looked);
    var v := LookVerdict(s.verdicts, h.verdict, d, env.looked).0;
    var c := At(s.table, TreePath(d));
    if Decided(c) {
      CacheTtlIsWord(s.table, TreePath(d));
      VerdictIsFound(v, h.verdict, d, ActionOf(c.status), CacheTtl(c.status, c.ttl), env.stored, now);
    }
  }

  lemma VerdictsSound(h: Hashes, s: State)
    requires Sound(h, s)
    ensures VerdictsOk(s.verdicts, h.verdict)
  {
  }

  lemma VerdictIsFound(v: V.VSlots, hash: Name -> nat, d: Name, action: V.Action, ttl: nat, stored: P.U64, now: P.U64)
    requires VerdictsOk(v, hash) && |d| <= 253 && 0 < ttl
    ensures stored + ttl * 1_000_000_000 < 0x1_0000_0000_0000_0000 ==>
      LookVerdict(StoreVerdict(v, hash, d, action, ttl, stored), hash, d, now).1 ==
        if now <= stored + ttl * 1_000_000_000 then Some((action, ttl)) else None
  {
    if stored + ttl * 1_000_000_000 < 0x1_0000_0000_0000_0000 {
      P.InsertThenLookup(v, V.Linear(hash, |v|), P.Used(d, hash(d), stored, ttl, action), now, false);
    }
  }

  // ------------------------------------------------------------------
  // What the end of a gravity check leaves behind
  // ------------------------------------------------------------------

  // Only a listed name is promoted, and only at its own path; unless the entry could
  // not be allocated, it and everything below it without an ALLOWED entry on the
  // path is blocked from then on.
  ghost predicate PromotedTable(t: Table, u: Table, d: Name, fault: Fault) {
    var p := TreePath(d);
    && (p == [] ==> u == t)
    && (forall q :: q != p ==> (q in u <==> q in t) && (q in t && q in u ==> u[q] == t[q]))
    && (fault.NoFault? && p != [] ==>
          && p in u && u[p].status == Blocked && u[p].ttl == 0
          && forall q {:trigger BlockedOn(u, q)} :: p <= q ==> (BlockedOn(u, q) <==> !AllowedOn(u, q)))
    && (!fault.NoFault? ==> u == t || (fault.EntryFault? && u == t - {p}))
  }

  // Its address answers are dropped, and no others.
  ghost predicate DroppedAnswers(a: A.ASlots, b: A.ASlots, d: Name) {
    && !P.Present(b, A.Key(d, 1)) && !P.Present(b, A.Key(d, 28))
    && forall k: A.Key :: k.domain != d || (k.qtype != 1 && k.qtype != 28) ==> (P.Present(b, k) <==> P.Present(a, k))
  }

  ghost predicate FinishedAs(s: State, s': State, d: Name, result: M.Gravity, fault: Fault) {
    && s'.verdicts == s.verdicts && s'.running == s.running - {d}
    && (d in s.asked ==> s'.asked == if result == Unreachable then s.asked - {d} else s.asked[d := Done])
    && (if result == Listed then PromotedTable(s.table, s'.table, d, fault) && DroppedAnswers(s.answers, s'.answers, d)
        else s'.table == s.table && s'.answers == s.answers)
  }

  lemma BlockedBelow(u: Table, p: Path, q: Path)
    requires p != [] && p in u && u[p].status == Blocked && p <= q
    ensures BlockedOn(u, q) <==> !AllowedOn(u, q)
  {
    AtMeans(u, q);
    AtIs(u, q);
    assert q[..|p|] == p;
    assert EntryAt(u, q, |p|, Blocked);
  }

  lemma PromotionMeans(t: Table, d: Name, when: nat, fault: Fault)
    ensures PromotedTable(t, InsertLive(t, d, GravityEntry(when), fault), d, fault)
  {
    hide BlockedOn, AllowedOn;
    var p, u := TreePath(d), InsertLive(t, d, GravityEntry(when), fault);
    if fault.NoFault? && p != [] {
      forall q | p <= q ensures BlockedOn(u, q) <==> !AllowedOn(u, q) { BlockedBelow(u, p, q); }
    }
  }

  lemma DroppedMeans(a: A.ASlots, hash: A.Key -> nat, d: Name)
    requires AnswersOk(a, hash)
    ensures DroppedAnswers(a, DropAnswers(a, hash, d), d)
  {
    if |d| <= A.MAX_DOMAIN {
      A.NoAnswerAfterInvalidate(a, hash, d);
    } else {
      forall k: A.Key | P.Present(a, k) ensures |k.domain| <= A.MAX_DOMAIN {
        var i :| 0 <= i < |a| && a[i].Used? && a[i].key == k;
        assert P.Stores(a, k, a[i].value, a[i].ttl);
      }
    }
  }

  lemma FinishMeans(h: Hashes, s: State, d: Name, result: M.Gravity, when: nat, fault: Fault)
    requires Sound(h, s)
    ensures Sized(s) && FinishedAs(s, Finish(h, s, d, result, when, fault), d, result, fault)
  {
    hide PromotedTable, DroppedAnswers, InsertLive, DropAnswers, AnswersOk, VerdictsOk;
    SizedSound(h, s);
    AnswersSound(h, s);
    PromotionMeans(s.table, d, when, fault);
    DroppedMeans(s.answers, h.answer, d);
  }
}
