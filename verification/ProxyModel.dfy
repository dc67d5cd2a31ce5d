// The proxy above the tree and the two caches: check_domain, the core of
// process_request, the end of gravity_check_thread and a reload, each as one
// step of a state machine.  What a step does to the tree is a map operation
// (module Forest), what it does to a cache is an operation of module ProbeTable.
module ProxyModel {
  import opened Prelude
  import opened Names
  import opened Question
  import opened Forest
  import opened Verdict
  import opened Decisions
  import opened AskOnce
  import P = ProbeTable
  import V = VerdictCache
  import A = AnswerCache
  import W = AnswerWire

  const QUERY_CACHE_TTL: nat := 300
  const RESPONSE_BUF: nat := 4096 + 32
  const SOURCE_HEURISTIC: nat := 1
  const SOURCE_GRAVITY: nat := 3
  const A_RECORD: nat := 1
  const AAAA_RECORD: nat := 28

  // The hash functions of the two caches.
  datatype Hashes = Hashes(verdict: Name -> nat, answer: A.Key -> nat)

  datatype State = State(
    table: Table,
    verdicts: V.VSlots,
    answers: A.ASlots,
    asked: Asked,
    running: set<Name>)

  ghost predicate Sized(s: State) {
    |s.verdicts| > 0 && |s.answers| >= A.PROBE_WINDOW
  }

  // What a query meets besides the state: clock readings, the heuristics' score
  // and reason, and which allocations succeed.
  datatype Env = Env(
    looked: P.U64, stored: P.U64, probed: P.U64, filled: P.U64, seen: nat, flagged: nat,
    score: real, reason: Name,
    review: Fault, claimed: bool, spawned: bool)

  // ------------------------------------------------------------------
  // check_domain
  // ------------------------------------------------------------------

  ghost function LookVerdict(v: V.VSlots, hash: Name -> nat, d: Name, now: P.U64): (r: (V.VSlots, Option<(V.Action, nat)>))
    requires |v| > 0
    ensures |r.0| == |v|
  {
    V.WholeOk(hash, |v|);
    if |d| > V.MAX_DOMAIN then (v, None) else P.Looked(v, P.Whole(|v|), d, hash(d), now, false)
  }

  ghost function StoreVerdict(v: V.VSlots, hash: Name -> nat, d: Name, action: V.Action, ttl: nat, now: P.U64): (r: V.VSlots)
    requires |v| > 0
    ensures |r| == |v|
  {
    V.WholeOk(hash, |v|);
    if ttl == 0 || |d| > V.MAX_DOMAIN then v
    else P.Inserted(v, P.Whole(|v|), P.Used(d, hash(d), now, ttl, action), now).0
  }

  // A cached verdict stands for a match.
  function FromCache(action: V.Action, ttl: nat): Check {
    if action == V.Block then Match(Blocked, ttl) else Match(Allowed, 0)
  }

  // What is cached of a match.
  function ActionOf(status: Status): V.Action {
    if status == Blocked then V.Block else V.Allow
  }

  function CacheTtl(status: Status, ttl: nat): nat {
    if status == Blocked then Effective(ttl) else QUERY_CACHE_TTL
  }

  ghost function CheckDomain(h: Hashes, s: State, d: Name, env: Env): (r: (State, Check))
    requires Sized(s)
    ensures Sized(r.0)
  {
    var (v, hit) := LookVerdict(s.verdicts, h.verdict, d, env.looked);
    match hit
    case Some((action, ttl)) => (s.(verdicts := v), FromCache(action, ttl))
    case None =>
      var c := At(s.table, TreePath(d));
      var t := Touch(s.table, TreePath(d), env.seen);
      var v' := if Decided(c) then StoreVerdict(v, h.verdict, d, ActionOf(c.status), CacheTtl(c.status, c.ttl), env.stored) else v;
      (s.(table := t, verdicts := v'), c)
  }

  // ------------------------------------------------------------------
  // What process_request does for a name it has never seen
  // ------------------------------------------------------------------

  function ReviewEntry(env: Env): Entry {
    Entry(Review, 0, 1, env.flagged, SOURCE_HEURISTIC, env.score, Some(env.reason))
  }

  // radix_tree_insert_live on the published tree.
  function InsertLive(t: Table, d: Name, e: Entry, fault: Fault): Table {
    if TreePath(d) == [] then t else InsertTable(t, TreePath(d), e, fault)
  }

  // asked_cache_try_claim and queue_gravity_check: a claimed name gets a thread
  // if a permit is free and the thread can be made; without a permit the claim is
  // given back, without a thread it stays.
  function Ask(s: State, d: Name, env: Env): State {
    var (asked, fire) := TryClaim(s.asked, d, env.claimed);
    if !fire then s
    else if |s.running| >= MAX_CHECKS then s.(asked := MarkDone(asked, d, false))
    else if env.spawned then s.(asked := asked, running := s.running + {d})
    else s.(asked := asked)
  }

  function Meet(s: State, d: Name, env: Env): State {
    Ask(s.(table := InsertLive(s.table, d, ReviewEntry(env), env.review)), d, env)
  }

  // ------------------------------------------------------------------
  // The answer cache and the upstream
  // ------------------------------------------------------------------

  ghost function LookAnswer(a: A.ASlots, hash: A.Key -> nat, k: A.Key, now: P.U64): (r: (A.ASlots, Option<(A.Payload, nat)>))
    requires |a| >= A.PROBE_WINDOW
    ensures |r.0| == |a|
  {
    A.WindowOk(hash(k), |a|);
    if |k.domain| > A.MAX_DOMAIN then (a, None) else P.Looked(a, A.Window(hash(k), |a|), k, hash(k), now, true)
  }

  ghost function StoreAnswer(a: A.ASlots, hash: A.Key -> nat, k: A.Key, p: A.Payload, ttl: nat, now: P.U64): (r: A.ASlots)
    requires |a| >= A.PROBE_WINDOW
    ensures |r| == |a|
  {
    A.WindowOk(hash(k), |a|);
    if !A.Accepts(k.domain, p, ttl) then a
    else P.Inserted(a, A.Window(hash(k), |a|), P.Used(k, hash(k), now, ttl, p), now).0
  }

  ghost function DropAnswers(a: A.ASlots, hash: A.Key -> nat, d: Name): (r: A.ASlots)
    requires |a| >= A.PROBE_WINDOW
    ensures |r| == |a|
  {
    A.CyclicOk(hash, |a|);
    if |d| > A.MAX_DOMAIN then a else A.BothInvalidated(a, A.Cyclic(hash, |a|), d)
  }

  // What the client gets.
  datatype Reply = Silent | Sinkhole(ttl: nat) | Cached(payload: A.Payload, ttl: nat) | Relayed(packet: Packet)

  predicate Eligible(c: Check, qtype: nat) {
    (qtype == A_RECORD || qtype == AAAA_RECORD) && (c.Match? ==> c.status == Allowed)
  }

  predicate Roomy(request: Packet, p: A.Payload) {
    |request| + p.numRecords * (12 + p.recordBytes) <= RESPONSE_BUF
  }

  // The upstream round trip; `upstream` is what came back, if anything did.
  ghost function Forward(h: Hashes, s: State, k: A.Key, eligible: bool, upstream: Packet, env: Env): (r: (State, Reply))
    requires Sized(s)
    ensures Sized(r.0)
  {
    if upstream == [] then (s, Silent)
    else
      var parsed := W.Cacheable(upstream, k.qtype);
      if eligible && parsed.Some?
      then (s.(answers := StoreAnswer(s.answers, h.answer, k, parsed.value.0, parsed.value.1, env.filled)), Relayed(upstream))
      else (s, Relayed(upstream))
  }

  ghost function Serve(h: Hashes, s: State, k: A.Key, eligible: bool, request: Packet, upstream: Packet, env: Env): (r: (State, Reply))
    requires Sized(s)
    ensures Sized(r.0)
  {
    if !eligible then Forward(h, s, k, eligible, upstream, env)
    else
      var (a, hit) := LookAnswer(s.answers, h.answer, k, env.probed);
      var s' := s.(answers := a);
      if hit.Some? && Roomy(request, hit.value.0) then (s', Cached(hit.value.0, hit.value.1))
      else Forward(h, s', k, eligible, upstream, env)
  }

  // A query for d that passed the rate limit and was understood.
  ghost function Answer(h: Hashes, s: State, d: Name, qtype: nat, request: Packet, upstream: Packet, env: Env): (r: (State, Reply))
    requires Sized(s)
    ensures Sized(r.0)
  {
    var (s1, c) := CheckDomain(h, s, d, env);
    if c.Match? && c.status == Blocked then (s1, Sinkhole(Effective(c.ttl)))
    else
      var s2 := if c.NoMatch? then Meet(s1, d, env) else s1;
      Serve(h, s2, A.Key(d, qtype), Eligible(c, qtype), request, upstream, env)
  }

  // ------------------------------------------------------------------
  // Gravity checks and reloads
  // ------------------------------------------------------------------

  datatype Gravity = Unreachable | Clean | Listed

  function GravityEntry(when: nat): Entry {
    Entry(Blocked, 0, 1, when, SOURCE_GRAVITY, 0.0, None)
  }

  // The end of gravity_check_thread.
  ghost function Finish(h: Hashes, s: State, d: Name, result: Gravity, when: nat, fault: Fault): State
    requires Sized(s)
  {
    var s1 := if result != Listed then s
      else s.(table := InsertLive(s.table, d, GravityEntry(when), fault), answers := DropAnswers(s.answers, h.answer, d));
    s1.(asked := MarkDone(s1.asked, d, result != Unreachable), running := s1.running - {d})
  }

  // radix_tree_swap and both clears.
  function Reload(s: State, t: Table): State {
    s.(table := t, verdicts := P.Cleared(s.verdicts), answers := P.Cleared(s.answers))
  }

  datatype Step =
    | Query(name: Name, qtype: nat, request: Packet, upstream: Packet, env: Env)
    | GravityDone(name: Name, result: Gravity, when: nat, fault: Fault)
    | Reloaded(table: Table)

  // What can happen: a query's name is one parse_query produced, and a gravity
  // check ends once.
  ghost predicate Possible(s: State, step: Step) {
    match step
    case Query(d, qtype, request, upstream, env) => HostName(d)
    case GravityDone(d, result, when, fault) => d in s.running
    case Reloaded(t) => true
  }

  // The check of d may end in a promotion without changing a decision on a name
  // short enough to be cached; the others are walked every time.
  ghost predicate SafeName(t: Table, d: Name, lossless: bool) {
    |d| <= V.MAX_DOMAIN ==> SafeFor(t, TreePath(d), lossless)
  }

  // What may happen: a reload leaves every name under check safe.  With no check
  // in flight every reload does.  In lossless runs no promotion loses the entry it
  // was to replace, and fewer reloads are unsafe.
  ghost predicate Enabled(s: State, step: Step, lossless: bool) {
    && Possible(s, step)
    && (step.Reloaded? ==> AllSafe(step.table, s.running, lossless))
    && (lossless && step.GravityDone? ==> !step.fault.EntryFault?)
  }

  ghost predicate AllSafe(t: Table, running: set<Name>, lossless: bool) {
    forall d {:trigger SafeName(t, d, lossless)} :: d in running ==> SafeName(t, d, lossless)
  }

  ghost function Apply(h: Hashes, s: State, step: Step): State
    requires Sized(s)
    ensures Sized(Apply(h, s, step))
  {
    match step
    case Query(d, qtype, request, upstream, env) => Answer(h, s, d, qtype, request, upstream, env).0
    case GravityDone(d, result, when, fault) => Finish(h, s, d, result, when, fault)
    case Reloaded(t) => Reload(s, t)
  }

  ghost predicate HostName(d: Name) {
    exists ls :: HostLabels(ls) && Join(ls) == d && |d| < DOMAIN_BUF
  }

  // ------------------------------------------------------------------
  // The invariant
  // ------------------------------------------------------------------

  // The cached verdict is the tree's, with the TTL a response would carry.
  predicate Agrees(c: Check, action: V.Action, ttl: nat) {
    c.Match? &&
    ((action == V.Block && c.status == Blocked && ttl == Effective(c.ttl))
      || (action == V.Allow && c.status == Allowed && ttl == QUERY_CACHE_TTL))
  }

  ghost predicate Coherent(v: V.VSlots, t: Table) {
    forall d: Name, action: V.Action, ttl: nat {:trigger P.Stores(v, d, action, ttl)} ::
      P.Stores(v, d, action, ttl) ==> Agrees(At(t, TreePath(d)), action, ttl)
  }

  // A name under check is pending.
  ghost predicate Awaited(s: State, d: Name) {
    HostName(d) && d in s.asked && s.asked[d] == Pending
  }

  ghost predicate Asking(s: State) {
    |s.running| <= MAX_CHECKS && forall d {:trigger Awaited(s, d)} :: d in s.running ==> Awaited(s, d)
  }

  ghost predicate AnswersOk(a: A.ASlots, hash: A.Key -> nat) {
    && |a| >= A.PROBE_WINDOW
    && P.Inv(a, A.Cyclic(hash, |a|))
    && (forall k: A.Key, p: A.Payload, ttl: nat {:trigger P.Stores(a, k, p, ttl)} ::
          P.Stores(a, k, p, ttl) ==> |k.domain| <= A.MAX_DOMAIN && W.PayloadOk(p) && ttl <= W.U32_MAX)
  }

  ghost predicate VerdictsOk(v: V.VSlots, hash: Name -> nat) {
    && |v| > 0
    && P.Inv(v, V.Linear(hash, |v|))
    && (forall d: Name, action: V.Action, ttl: nat {:trigger P.Stores(v, d, action, ttl)} ::
          P.Stores(v, d, action, ttl) ==> |d| <= V.MAX_DOMAIN && ttl <= W.U32_MAX)
  }

  // What every possible step keeps, reloads of any table included.
  ghost predicate Sound(h: Hashes, s: State) {
    VerdictsOk(s.verdicts, h.verdict) && AnswersOk(s.answers, h.answer) && Asking(s)
  }

  // What every enabled step keeps.
  ghost predicate Inv(h: Hashes, s: State, lossless: bool) {
    Sound(h, s) && Coherent(s.verdicts, s.table) && AllSafe(s.table, s.running, lossless)
  }

  // ------------------------------------------------------------------
  // check_domain answers like the tree
  // ------------------------------------------------------------------

  // The decisions on the names that are short enough to be cached.
  ghost predicate KeepsCached(t: Table, u: Table) {
    forall d: Name {:trigger KeptFor(t, u, d)} :: |d| <= V.MAX_DOMAIN ==> KeptFor(t, u, d)
  }

  ghost predicate KeptFor(t: Table, u: Table, d: Name) {
    DecisionKept(t, u, TreePath(d))
  }

  lemma CachedAreKept(t: Table, u: Table)
    requires KeepsDecided(t, u)
    ensures KeepsCached(t, u)
  {
    forall d: Name ensures KeptFor(t, u, d) {
      assert DecisionKept(t, u, TreePath(d));
    }
  }

  lemma CoherentMoves(v: V.VSlots, hash: Name -> nat, t: Table, u: Table)
    requires VerdictsOk(v, hash) && Coherent(v, t) && KeepsCached(t, u)
    ensures Coherent(v, u)
  {
    forall d: Name, action: V.Action, ttl: nat | P.Stores(v, d, action, ttl)
      ensures Agrees(At(u, TreePath(d)), action, ttl)
    {
      assert KeptFor(t, u, d);
    }
  }

  lemma LookVerdictStores(v: V.VSlots, hash: Name -> nat, d: Name, now: P.U64)
    requires VerdictsOk(v, hash)
    ensures var (v', hit) := LookVerdict(v, hash, d, now);
      && VerdictsOk(v', hash)
      && (forall k: Name, action: V.Action, ttl: nat {:trigger P.Stores(v', k, action, ttl)} :: P.Stores(v', k, action, ttl) ==> P.Stores(v, k, action, ttl))
      && (hit.Some? ==> P.Stores(v, d, hit.value.0, hit.value.1))
  {
    if |d| <= V.MAX_DOMAIN {
      P.LookedStores(v, V.Linear(hash, |v|), d, now, false);
      var v' := LookVerdict(v, hash, d, now).0;
      forall k: Name, action: V.Action, ttl: nat | P.Stores(v', k, action, ttl) ensures P.Stores(v, k, action, ttl) {
        P.WithinStores(v, v', k, action, ttl);
      }
    }
  }

  lemma StoreVerdictStores(v: V.VSlots, hash: Name -> nat, d: Name, action: V.Action, ttl: nat, now: P.U64)
    requires VerdictsOk(v, hash) && ttl <= W.U32_MAX
    ensures var v' := StoreVerdict(v, hash, d, action, ttl, now);
      && VerdictsOk(v', hash)
      && forall k: Name, a: V.Action, l: nat {:trigger P.Stores(v', k, a, l)} ::
          P.Stores(v', k, a, l) ==> (k == d && a == action && l == ttl) || P.Stores(v, k, a, l)
  {
    if ttl != 0 && |d| <= V.MAX_DOMAIN {
      P.InsertedStores(v, V.Linear(hash, |v|), P.Used(d, hash(d), now, ttl, action), now);
    }
  }

  lemma CacheTtlIsWord(t: Table, p: Path)
    requires Decided(At(t, p))
    ensures CacheTtl(At(t, p).status, At(t, p).ttl) <= W.U32_MAX
  {
  }

  // The tree has been walked and its verdict stored.
  lemma MissStores(v: V.VSlots, hash: Name -> nat, t: Table, d: Name, now: P.U64)
    requires VerdictsOk(v, hash)
    ensures var c := At(t, TreePath(d));
      var v' := if Decided(c) then StoreVerdict(v, hash, d, ActionOf(c.status), CacheTtl(c.status, c.ttl), now) else v;
      && VerdictsOk(v', hash)
      && (forall k: Name, a: V.Action, l: nat {:trigger P.Stores(v', k, a, l)} ::
            P.Stores(v', k, a, l) ==> (k == d && Agrees(c, a, l)) || P.Stores(v, k, a, l))
  {
    var c := At(t, TreePath(d));
    if Decided(c) {
      CacheTtlIsWord(t, TreePath(d));
      StoreVerdictStores(v, hash, d, ActionOf(c.status), CacheTtl(c.status, c.ttl), now);
    }
  }

  // What check_domain leaves alone, in any sound state.
  lemma CheckDomainSound(h: Hashes, s: State, d: Name, env: Env)
    requires Sound(h, s)
    ensures var (s1, c) := CheckDomain(h, s, d, env);
      && Sound(h, s1) && s1.answers == s.answers && s1.asked == s.asked && s1.running == s.running
      && (s1.table == s.table || s1.table == Touch(s.table, TreePath(d), env.seen))
      && (c.NoMatch? ==> At(s1.table, TreePath(d)).NoMatch?)
      && (c.Match? && c.status == Blocked ==> Effective(c.ttl) <= W.U32_MAX)
  {
    hide Touch, At, StoreVerdict, LookVerdict, P.Inv, P.Stores, Safe;
    LookVerdictStores(s.verdicts, h.verdict, d, env.looked);
    MissStores(LookVerdict(s.verdicts, h.verdict, d, env.looked).0, h.verdict, s.table, d, env.stored);
    TouchSame(s.table, TreePath(d), env.seen);
    if At(s.table, TreePath(d)).Match? { TtlIsWord(s.table, TreePath(d)); }
    SameAsking(s, CheckDomain(h, s, d, env).0);
  }

  lemma TtlIsWord(t: Table, p: Path)
    requires At(t, p).Match?
    ensures Effective(At(t, p).ttl) <= W.U32_MAX
  {
  }

  lemma SameAsking(s: State, s': State)
    requires Asking(s) && s'.running <= s.running && |s'.running| <= MAX_CHECKS
    requires forall d :: d in s'.running && d in s.asked && s.asked[d] == Pending ==> d in s'.asked && s'.asked[d] == Pending
    ensures Asking(s')
  {
    forall d | d in s'.running ensures Awaited(s', d) {
      assert Awaited(s, d);
    }
  }

  // The names under check stay safe when the table changes as given.
  ghost predicate KeepsSafe(t: Table, u: Table, d: Name, lossless: bool) {
    SafeName(t, d, lossless) ==> SafeName(u, d, lossless)
  }

  lemma TouchKeepsSafe(t: Table, path: Path, seen: nat, d: Name, lossless: bool)
    ensures KeepsSafe(t, Touch(t, path, seen), d, lossless)
  {
    var u, p := Touch(t, path, seen), TreePath(d);
    TouchKeeps(t, path, seen);
    if SafeFor(t, p, lossless) {
      forall j: nat, s: Status | 0 < j <= |p| ensures EntryAt(t, p, j, s) <==> EntryAt(u, p, j, s) {
      }
      SafeSeesDecisions(t, u, p, lossless);
    }
  }

  lemma StillSafe(t: Table, u: Table, running: set<Name>, lossless: bool)
    requires AllSafe(t, running, lossless)
    requires forall d {:trigger KeepsSafe(t, u, d, lossless)} :: d in running ==> KeepsSafe(t, u, d, lossless)
    ensures AllSafe(u, running, lossless)
  {
    forall d | d in running ensures SafeName(u, d, lossless) {
      assert SafeName(t, d, lossless) && KeepsSafe(t, u, d, lossless);
    }
  }

  lemma TouchSame(t: Table, path: Path, seen: nat)
    ensures Same(At(t, path), At(Touch(t, path, seen), path))
  {
    LookupKeepsVerdicts(t, path, seen, path);
  }

  lemma CheckKeepsCoherent(h: Hashes, s: State, d: Name, env: Env)
    requires Sound(h, s) && Coherent(s.verdicts, s.table)
    ensures var (s1, c) := CheckDomain(h, s, d, env);
      && Same(c, At(s.table, TreePath(d)))
      && Coherent(s1.verdicts, s.table)
  {
    hide Touch, At, StoreVerdict, LookVerdict, P.Inv, P.Stores;
    LookVerdictStores(s.verdicts, h.verdict, d, env.looked);
    MissStores(LookVerdict(s.verdicts, h.verdict, d, env.looked).0, h.verdict, s.table, d, env.stored);
  }

  // The fast path refines the slow one: whatever is cached, check_domain gives
  // the verdict a fresh walk of the tree would give, and the response TTL.
  lemma CheckDomainIsLookup(h: Hashes, s: State, d: Name, env: Env, lossless: bool)
    requires Inv(h, s, lossless)
    ensures var (s1, c) := CheckDomain(h, s, d, env);
      && Same(c, At(s.table, TreePath(d)))
      && Same(c, At(s1.table, TreePath(d)))
      && Inv(h, s1, lossless)
      && KeepsMatched(s.table, s1.table) && s1.answers == s.answers
  {
    hide Touch, At, CheckDomain, Coherent, SafeFor, KeepsDecided, KeepsCached, VerdictsOk;
    SizedSound(h, s);
    CheckDomainSound(h, s, d, env);
    CheckKeepsCoherent(h, s, d, env);
    var (s1, c) := CheckDomain(h, s, d, env);
    TouchKeeps(s.table, TreePath(d), env.seen);
    TouchSame(s.table, TreePath(d), env.seen);
    if s1.table != s.table {
      CachedAreKept(s.table, s1.table);
      CoherentMoves(s1.verdicts, h.verdict, s.table, s1.table);
      forall k | k in s.running ensures KeepsSafe(s.table, s1.table, k, lossless) {
        TouchKeepsSafe(s.table, TreePath(d), env.seen, k, lossless);
      }
      StillSafe(s.table, s1.table, s.running, lossless);
    }
  }

  // ------------------------------------------------------------------
  // A first meeting
  // ------------------------------------------------------------------

  lemma UnmatchedHasNoEntry(t: Table, p: Path)
    requires At(t, p).NoMatch?
    ensures forall j :: 0 < j <= |p| ==> p[..j] !in t
    ensures p != [] ==> p !in t
  {
    AtIs(t, p);
    assert p[..|p|] == p;
  }

  // Flagging an unmatched name sets its entry, or does nothing.
  lemma FlagKeeps(t: Table, d: Name, env: Env, lossless: bool)
    requires At(t, TreePath(d)).NoMatch?
    ensures var u := InsertLive(t, d, ReviewEntry(env), env.review);
      && KeepsDecided(t, u) && KeepsMatched(t, u)
      && (env.review.NoFault? && TreePath(d) != [] ==> Matched(u, TreePath(d)))
      && SafeName(u, d, lossless)
      && forall k {:trigger KeepsSafe(t, u, k, lossless)} :: KeepsSafe(t, u, k, lossless)
  {
    hide SafeFor;
    var p := TreePath(d);
    var u := InsertLive(t, d, ReviewEntry(env), env.review);
    UnmatchedHasNoEntry(t, p);
    if p == [] || !env.review.NoFault? {
      assert t == u;
      forall q ensures DecisionKept(t, u, q) {}
    } else {
      assert t - {p} == u - {p};
      ReviewChange(t, u, p);
      assert p[..|p|] == p;
      AtIs(u, p);
      forall k ensures KeepsSafe(t, u, k, lossless) { FlagKeepsSafe(t, u, p, k, lossless); }
    }
    NewIsSafe(u, p);
  }

  lemma FlagKeepsSafe(t: Table, u: Table, p: Path, d: Name, lossless: bool)
    requires p !in t && p in u && u[p].status == Review && t - {p} == u - {p}
    ensures KeepsSafe(t, u, d, lossless)
  {
    hide SafeFor;
    var q := TreePath(d);
    if SafeFor(t, q, lossless) {
      forall j: nat | 0 < j <= |q| && q[..j] != p ensures (q[..j] in t <==> q[..j] in u) && (q[..j] in t ==> u[q[..j]] == t[q[..j]]) {
        assert q[..j] in t <==> q[..j] in t - {p};
        assert q[..j] in u <==> q[..j] in u - {p};
        if q[..j] in t { assert (t - {p})[q[..j]] == (u - {p})[q[..j]]; }
      }
      SafeSeesDecisions(t, u, q, lossless);
    }
  }

  lemma AskKeeps(s: State, d: Name, env: Env)
    requires Asking(s) && HostName(d)
    ensures Asking(Ask(s, d, env))
    ensures Ask(s, d, env).running <= s.running + {d}
  {
    var s' := Ask(s, d, env);
    forall k | k in s'.running ensures Awaited(s', k) {
      if k in s.running { assert Awaited(s, k); }
    }
  }

  lemma MeetSound(h: Hashes, s: State, d: Name, env: Env)
    requires Sound(h, s) && HostName(d)
    ensures Sound(h, Meet(s, d, env)) && Meet(s, d, env).answers == s.answers
  {
    hide VerdictsOk, AnswersOk;
    var u := InsertLive(s.table, d, ReviewEntry(env), env.review);
    SameAsking(s, s.(table := u));
    AskKeeps(s.(table := u), d, env);
  }

  lemma MeetKeeps(h: Hashes, s: State, d: Name, env: Env, lossless: bool)
    requires Inv(h, s, lossless) && HostName(d) && At(s.table, TreePath(d)).NoMatch?
    ensures var s' := Meet(s, d, env);
      && Inv(h, s', lossless) && s'.answers == s.answers
      && KeepsMatched(s.table, s'.table)
      && (env.review.NoFault? && TreePath(d) != [] ==> Matched(s'.table, TreePath(d)))
  {
    hide VerdictsOk, AnswersOk, InsertLive, SafeFor, At, Coherent, KeepsDecided, KeepsCached, Matched;
    var u := InsertLive(s.table, d, ReviewEntry(env), env.review);
    FlagKeeps(s.table, d, env, lossless);
    CachedAreKept(s.table, u);
    CoherentMoves(s.verdicts, h.verdict, s.table, u);
    assert forall k :: k in s.running ==> KeepsSafe(s.table, u, k, lossless);
    StillSafe(s.table, u, s.running, lossless);
    MeetSound(h, s, d, env);
    SameAsking(s, s.(table := u));
    AskKeeps(s.(table := u), d, env);
  }

  // ------------------------------------------------------------------
  // The answer cache
  // ------------------------------------------------------------------

  // Nothing but what was there, or the key k.
  ghost predicate OnlyNew(a: A.ASlots, b: A.ASlots, k: A.Key) {
    forall j: A.Key, p: A.Payload, ttl: nat {:trigger P.Stores(b, j, p, ttl)} ::
      P.Stores(b, j, p, ttl) ==> j == k || P.Stores(a, j, p, ttl)
  }

  ghost predicate NothingNew(a: A.ASlots, b: A.ASlots) {
    forall j: A.Key, p: A.Payload, ttl: nat {:trigger P.Stores(b, j, p, ttl)} ::
      P.Stores(b, j, p, ttl) ==> P.Stores(a, j, p, ttl)
  }

  lemma WithinNothingNew(a: A.ASlots, b: A.ASlots)
    requires P.Within(a, b)
    ensures NothingNew(a, b)
  {
    forall j: A.Key, p: A.Payload, ttl: nat | P.Stores(b, j, p, ttl) ensures P.Stores(a, j, p, ttl) {
      P.WithinStores(a, b, j, p, ttl);
    }
  }

  lemma LookAnswerKeeps(a: A.ASlots, hash: A.Key -> nat, k: A.Key, now: P.U64)
    requires AnswersOk(a, hash)
    ensures var (b, hit) := LookAnswer(a, hash, k, now);
      && AnswersOk(b, hash) && NothingNew(a, b)
      && (hit.Some? ==> P.Stores(a, k, hit.value.0, hit.value.1))
  {
    if |k.domain| <= A.MAX_DOMAIN {
      P.LookedStores(a, A.Cyclic(hash, |a|), k, now, true);
      WithinNothingNew(a, LookAnswer(a, hash, k, now).0);
    }
  }

  lemma CacheableIsOk(reply: Packet, qtype: nat)
    requires W.Cacheable(reply, qtype).Some?
    ensures var (p, ttl) := W.Cacheable(reply, qtype).value;
      W.PayloadOk(p) && 0 < ttl <= W.U32_MAX
  {
    hide W.Collected, W.MinTtl;
    W.CollectedMatches(reply, qtype);
  }

  lemma StoreAnswerKeeps(a: A.ASlots, hash: A.Key -> nat, k: A.Key, p: A.Payload, ttl: nat, now: P.U64)
    requires AnswersOk(a, hash) && W.PayloadOk(p) && ttl <= W.U32_MAX
    ensures var b := StoreAnswer(a, hash, k, p, ttl, now); AnswersOk(b, hash) && OnlyNew(a, b, k)
  {
    if A.Accepts(k.domain, p, ttl) {
      P.InsertedStores(a, A.Cyclic(hash, |a|), P.Used(k, hash(k), now, ttl, p), now);
    }
  }

  // What answering from the cache or the upstream does, and what a cached reply
  // was built from.
  lemma ServeKeeps(h: Hashes, s: State, k: A.Key, eligible: bool, request: Packet, upstream: Packet, env: Env)
    requires AnswersOk(s.answers, h.answer) && Sized(s)
    ensures var (s', reply) := Serve(h, s, k, eligible, request, upstream, env);
      && s' == s.(answers := s'.answers) && AnswersOk(s'.answers, h.answer)
      && OnlyNew(s.answers, s'.answers, k)
      && (!eligible ==> s' == s)
      && (reply.Cached? ==> eligible && P.Stores(s.answers, k, reply.payload, reply.ttl))
  {
    var a := s.answers;
    if eligible {
      LookAnswerKeeps(a, h.answer, k, env.probed);
      a := LookAnswer(a, h.answer, k, env.probed).0;
    }
    var parsed := W.Cacheable(upstream, k.qtype);
    if eligible && upstream != [] && parsed.Some? {
      CacheableIsOk(upstream, k.qtype);
      StoreAnswerKeeps(a, h.answer, k, parsed.value.0, parsed.value.1, env.filled);
    }
  }

  lemma DropAnswersKeeps(a: A.ASlots, hash: A.Key -> nat, d: Name)
    requires AnswersOk(a, hash)
    ensures var b := DropAnswers(a, hash, d); AnswersOk(b, hash) && NothingNew(a, b)
  {
    if |d| <= A.MAX_DOMAIN {
      var lay := A.Cyclic(hash, |a|);
      var k, j := A.Key(d, 1), A.Key(d, 28);
      P.InvalidatedWithin(a, lay, k);
      var m := P.Invalidated(a, lay.order(k), k, lay.hash(k));
      P.InvalidatedWithin(m, lay, j);
      WithinNothingNew(a, m);
      WithinNothingNew(m, DropAnswers(a, hash, d));
    }
  }

  // ------------------------------------------------------------------
  // Every step keeps the invariant
  // ------------------------------------------------------------------

  lemma AnswerSound(h: Hashes, s: State, d: Name, qtype: nat, request: Packet, upstream: Packet, env: Env)
    requires Sound(h, s) && HostName(d)
    ensures Sound(h, Answer(h, s, d, qtype, request, upstream, env).0)
  {
    hide CheckDomain, Meet, Serve, VerdictsOk, P.Inv, P.Stores;
    SizedSound(h, s);
    CheckDomainSound(h, s, d, env);
    var (s1, c) := CheckDomain(h, s, d, env);
    MeetSound(h, s1, d, env);
    var s2 := if c.NoMatch? then Meet(s1, d, env) else s1;
    SizedSound(h, s2);
    ServeKeeps(h, s2, A.Key(d, qtype), Eligible(c, qtype), request, upstream, env);
    SameAsking(s2, Serve(h, s2, A.Key(d, qtype), Eligible(c, qtype), request, upstream, env).0);
  }

  lemma SizedSound(h: Hashes, s: State)
    requires Sound(h, s)
    ensures Sized(s)
  {
  }

  lemma AnswerKeeps(h: Hashes, s: State, d: Name, qtype: nat, request: Packet, upstream: Packet, env: Env, lossless: bool)
    requires Inv(h, s, lossless) && HostName(d)
    ensures Inv(h, Answer(h, s, d, qtype, request, upstream, env).0, lossless)
  {
    hide CheckDomain, Meet, Serve, Sound, Coherent, SafeFor, At;
    SizedSound(h, s);
    AnswerSound(h, s, d, qtype, request, upstream, env);
    CheckDomainIsLookup(h, s, d, env, lossless);
    var (s1, c) := CheckDomain(h, s, d, env);
    if c.NoMatch? { MeetKeeps(h, s1, d, env, lossless); }
    var s2 := if c.NoMatch? then Meet(s1, d, env) else s1;
    SizedSound(h, s2);
    AnswersSound(h, s2);
    ServeKeeps(h, s2, A.Key(d, qtype), Eligible(c, qtype), request, upstream, env);
  }

  lemma AnswersSound(h: Hashes, s: State)
    requires Sound(h, s)
    ensures AnswersOk(s.answers, h.answer)
  {
  }

  // Two host names with a common path are the same name.
  lemma HostNamesApart(d: Name, e: Name)
    requires HostName(d) && HostName(e) && TreePath(d) == TreePath(e)
    ensures d == e
  {
    var ls :| HostLabels(ls) && Join(ls) == d && |d| < DOMAIN_BUF;
    var ms :| HostLabels(ms) && Join(ms) == e && |e| < DOMAIN_BUF;
    if ls != [] { PathOfHostName(ls); }
    if ms != [] { PathOfHostName(ms); }
    assert ls == [] <==> ms == [];
    if ls != [] { HostPathInjective(ls, ms); }
  }

  // A name at or below a host name is no shorter.
  lemma LongerBelow(d: Name, k: Name)
    requires HostName(d) && TreePath(d) != [] && TreePath(d) <= TreePath(k)
    ensures |d| <= |k|
  {
    var ls :| HostLabels(ls) && Join(ls) == d && |d| < DOMAIN_BUF;
    if ls != [] { BelowIsLonger(ls, k); }
  }

  // A gravity promotion keeps every decision a cache might hold and leaves every
  // other name under check safe, whichever of its allocations fail.
  lemma PromotionKeeps(t: Table, d: Name, when: nat, fault: Fault, lossless: bool)
    requires HostName(d) && SafeName(t, d, lossless) && (lossless ==> !fault.EntryFault?)
    ensures var u := InsertLive(t, d, GravityEntry(when), fault);
      && KeepsCached(t, u) && (|d| <= V.MAX_DOMAIN ==> KeepsDecided(t, u))
      && forall k {:trigger KeepsSafe(t, u, k, lossless)} :: HostName(k) && k != d ==> KeepsSafe(t, u, k, lossless)
  {
    hide SafeFor, Safe, At;
    var p, e := TreePath(d), GravityEntry(when);
    var u := InsertLive(t, d, e, fault);
    if p == [] || (!fault.NoFault? && !fault.EntryFault?) {
      assert t == u;
      forall q ensures DecisionKept(t, u, q) {}
      CachedAreKept(t, u);
    } else if |d| <= V.MAX_DOMAIN {
      SafeForIff(t, p, e, lossless);
      CachedAreKept(t, u);
      forall k | HostName(k) && k != d ensures KeepsSafe(t, u, k, lossless) {
        OthersSafe(t, d, k, e, fault, lossless);
      }
    } else {
      LongPromotionKeeps(t, u, d, lossless);
    }
  }

  lemma OthersSafe(t: Table, d: Name, k: Name, e: Entry, fault: Fault, lossless: bool)
    requires HostName(d) && HostName(k) && k != d && TreePath(d) != [] && e.status == Blocked && e.ttl == 0
    requires SafeFor(t, TreePath(d), lossless) && (fault.NoFault? || (fault.EntryFault? && !lossless))
    ensures KeepsSafe(t, InsertLive(t, d, e, fault), k, lossless)
  {
    hide At;
    var p := TreePath(d);
    if TreePath(k) == p { HostNamesApart(k, d); }
    if SafeFor(t, TreePath(k), lossless) {
      if fault.NoFault? { SafeUnderBlocking(t, TreePath(k), p, e, lossless); } else { SafeUnderLosing(t, TreePath(k), p); }
    }
  }

  // The promotion of a name too long to be cached is not seen by shorter ones.
  lemma LongPromotionKeeps(t: Table, u: Table, d: Name, lossless: bool)
    requires HostName(d) && TreePath(d) != [] && |d| > V.MAX_DOMAIN && t - {TreePath(d)} == u - {TreePath(d)}
    ensures KeepsCached(t, u) && forall k {:trigger KeepsSafe(t, u, k, lossless)} :: KeepsSafe(t, u, k, lossless)
  {
    hide SafeFor, At;
    forall k: Name ensures |k| <= V.MAX_DOMAIN ==> KeptFor(t, u, k) && KeepsSafe(t, u, k, lossless) {
      if |k| <= V.MAX_DOMAIN {
        if TreePath(d) <= TreePath(k) { LongerBelow(d, k); }
        Elsewhere(t, u, TreePath(k), TreePath(d), lossless);
      }
    }
  }

  lemma PromotionMatches(t: Table, d: Name, when: nat)
    ensures KeepsMatched(t, InsertLive(t, d, GravityEntry(when), NoFault))
  {
    var u := InsertLive(t, d, GravityEntry(when), NoFault);
    forall q ensures Matched(t, q) ==> Matched(u, q) {
      AtIs(t, q);
      AtIs(u, q);
    }
  }

  lemma FinishSound(h: Hashes, s: State, d: Name, result: Gravity, when: nat, fault: Fault)
    requires Sound(h, s) && d in s.running
    ensures Sound(h, Finish(h, s, d, result, when, fault))
  {
    hide VerdictsOk, InsertLive;
    SizedSound(h, s);
    var s' := Finish(h, s, d, result, when, fault);
    DropAnswersKeeps(s.answers, h.answer, d);
    assert |s'.running| <= |s.running| by { assert s.running == s'.running + {d}; }
    SameAsking(s, s');
  }

  lemma FinishKeeps(h: Hashes, s: State, d: Name, result: Gravity, when: nat, fault: Fault, lossless: bool)
    requires Inv(h, s, lossless) && d in s.running && (lossless ==> !fault.EntryFault?)
    ensures Inv(h, Finish(h, s, d, result, when, fault), lossless)
  {
    hide VerdictsOk, AnswersOk, InsertLive, Coherent, SafeFor, DropAnswers, KeepsCached, KeepsDecided;
    SizedSound(h, s);
    var s' := Finish(h, s, d, result, when, fault);
    FinishSound(h, s, d, result, when, fault);
    assert Awaited(s, d) && SafeName(s.table, d, lossless);
    if result == Listed {
      PromotionKeeps(s.table, d, when, fault, lossless);
      CoherentMoves(s.verdicts, h.verdict, s.table, s'.table);
      forall k | k in s'.running ensures KeepsSafe(s.table, s'.table, k, lossless) {
        assert Awaited(s, k);
      }
      StillSafe(s.table, s'.table, s'.running, lossless);
    }
  }

  lemma ReloadSound(h: Hashes, s: State, t: Table)
    requires Sound(h, s)
    ensures Sound(h, Reload(s, t)) && Coherent(Reload(s, t).verdicts, t)
  {
    P.ClearedStoresNothing(s.verdicts, V.Linear(h.verdict, |s.verdicts|));
    P.ClearedStoresNothing(s.answers, A.Cyclic(h.answer, |s.answers|));
    SameAsking(s, Reload(s, t));
  }

  lemma ReloadKeeps(h: Hashes, s: State, t: Table, lossless: bool)
    requires Inv(h, s, lossless) && Enabled(s, Reloaded(t), lossless)
    ensures Inv(h, Reload(s, t), lossless)
  {
    hide Sound, Coherent, SafeFor;
    ReloadSound(h, s, t);
  }

  lemma StepSound(h: Hashes, s: State, step: Step)
    requires Sound(h, s) && Possible(s, step)
    ensures Sized(s) && Sound(h, Apply(h, s, step))
  {
    hide Answer, Finish, Reload;
    SizedSound(h, s);
    match step
    case Query(d, qtype, request, upstream, env) => AnswerSound(h, s, d, qtype, request, upstream, env);
    case GravityDone(d, result, when, fault) => FinishSound(h, s, d, result, when, fault);
    case Reloaded(t) => ReloadSound(h, s, t);
  }

  lemma StepKeeps(h: Hashes, s: State, step: Step, lossless: bool)
    requires Inv(h, s, lossless) && Enabled(s, step, lossless)
    ensures Sized(s) && Inv(h, Apply(h, s, step), lossless)
  {
    hide Answer, Finish, Reload, Sound;
    SizedSound(h, s);
    match step
    case Query(d, qtype, request, upstream, env) => AnswerKeeps(h, s, d, qtype, request, upstream, env, lossless);
    case GravityDone(d, result, when, fault) => FinishKeeps(h, s, d, result, when, fault, lossless);
    case Reloaded(t) => ReloadKeeps(h, s, t, lossless);
  }

  // ------------------------------------------------------------------
  // Runs
  // ------------------------------------------------------------------

  ghost function Run(h: Hashes, s: State, steps: seq<Step>): State
    requires Sized(s)
    ensures Sized(Run(h, s, steps))
    decreases |steps|
  {
    if steps == [] then s else Run(h, Apply(h, s, steps[0]), steps[1..])
  }

  ghost predicate Feasible(h: Hashes, s: State, steps: seq<Step>, lossless: bool)
    requires Sized(s)
    decreases |steps|
  {
    steps == [] || (Enabled(s, steps[0], lossless) && Feasible(h, Apply(h, s, steps[0]), steps[1..], lossless))
  }

  // As proxy_init leaves it: a published tree, empty caches, nothing in flight.
  ghost predicate Fresh(s: State) {
    && Sized(s)
    && (forall i :: 0 <= i < |s.verdicts| ==> s.verdicts[i].Empty?)
    && (forall i :: 0 <= i < |s.answers| ==> s.answers[i].Empty?)
    && s.asked == map[] && s.running == {}
  }

  lemma FreshInv(h: Hashes, s: State)
    requires Fresh(s)
    ensures Answered(s) && forall lossless :: Inv(h, s, lossless)
  {
    V.WholeOk(h.verdict, |s.verdicts|);
    A.CyclicOk(h.answer, |s.answers|);
  }

  lemma {:induction false} RunKeeps(h: Hashes, s: State, steps: seq<Step>, lossless: bool)
    requires Inv(h, s, lossless) && Feasible(h, s, steps, lossless)
    ensures Inv(h, Run(h, s, steps), lossless)
    decreases |steps|
  {
    if steps != [] {
      StepKeeps(h, s, steps[0], lossless);
      RunKeeps(h, Apply(h, s, steps[0]), steps[1..], lossless);
    }
  }

  // Over every run, whatever the clocks read and whichever allocations fail,
  // check_domain and a fresh walk of the tree agree on every name; in lossless runs
  // under fewer conditions on the reloads.
  lemma VerdictsCoherentOverRuns(h: Hashes, s: State, steps: seq<Step>, d: Name, env: Env, lossless: bool)
    requires Fresh(s) && Feasible(h, s, steps, lossless)
    ensures var t := Run(h, s, steps); Same(CheckDomain(h, t, d, env).1, At(t.table, TreePath(d)))
  {
    FreshInv(h, s);
    RunKeeps(h, s, steps, lossless);
    CheckDomainIsLookup(h, Run(h, s, steps), d, env, lossless);
  }

  // ------------------------------------------------------------------
  // Served answers
  // ------------------------------------------------------------------

  ghost predicate AnsweredFor(s: State, d: Name) {
    d == [] || Matched(s.table, TreePath(d))
  }

  // Every name with a cached answer is matched in the tree, but for the empty
  // name, which has no place there.
  ghost predicate Answered(s: State) {
    forall k: A.Key, p: A.Payload, ttl: nat {:trigger P.Stores(s.answers, k, p, ttl)} ::
      P.Stores(s.answers, k, p, ttl) ==> AnsweredFor(s, k.domain)
  }

  // The tree's allocations succeed; such a run is lossless.
  ghost predicate Lucky(step: Step) {
    match step
    case Query(d, qtype, request, upstream, env) => env.review.NoFault?
    case GravityDone(d, result, when, fault) => fault.NoFault?
    case Reloaded(t) => true
  }

  lemma NoPath(d: Name)
    requires HostName(d) && TreePath(d) == []
    ensures d == []
  {
    var ls :| HostLabels(ls) && Join(ls) == d && |d| < DOMAIN_BUF;
    if ls != [] { PathOfHostName(ls); }
  }

  lemma AnsweredMoves(s: State, s': State, k: A.Key)
    requires Answered(s) && KeepsMatched(s.table, s'.table)
    requires OnlyNew(s.answers, s'.answers, k)
    requires s'.answers == s.answers || AnsweredFor(s', k.domain)
    ensures Answered(s')
  {
    forall j: A.Key, p: A.Payload, ttl: nat | P.Stores(s'.answers, j, p, ttl) ensures AnsweredFor(s', j.domain) {
      if P.Stores(s.answers, j, p, ttl) { assert AnsweredFor(s, j.domain); }
    }
  }

  lemma KeepsMatchedChain(t: Table, u: Table, v: Table)
    requires KeepsMatched(t, u) && KeepsMatched(u, v)
    ensures KeepsMatched(t, v)
  {
    forall p ensures Matched(t, p) ==> Matched(v, p) {
      if Matched(t, p) { assert Matched(u, p); }
    }
  }

  // After the check, and the first meeting if there was one, d is matched.
  lemma MetIsMatched(h: Hashes, s: State, d: Name, env: Env)
    requires Inv(h, s, true) && HostName(d) && env.review.NoFault?
    ensures var (s1, c) := CheckDomain(h, s, d, env);
      var s2 := if c.NoMatch? then Meet(s1, d, env) else s1;
      && KeepsMatched(s.table, s2.table) && s2.answers == s.answers
      && AnsweredFor(s2, d) && AnswersOk(s2.answers, h.answer) && Sized(s2)
      && (c.NoMatch? ==> !Matched(s.table, TreePath(d)))
      && (c.Match? ==> s2 == s1 && Same(c, At(s2.table, TreePath(d))))
  {
    CheckDomainIsLookup(h, s, d, env, true);
    var (s1, c) := CheckDomain(h, s, d, env);
    if c.NoMatch? {
      MeetKeeps(h, s1, d, env, true);
      KeepsMatchedChain(s.table, s1.table, Meet(s1, d, env).table);
      if TreePath(d) == [] { NoPath(d); }
    }
  }

  lemma QueryAnswered(h: Hashes, s: State, d: Name, qtype: nat, request: Packet, upstream: Packet, env: Env)
    requires Inv(h, s, true) && Answered(s) && HostName(d) && env.review.NoFault?
    ensures var (s', reply) := Answer(h, s, d, qtype, request, upstream, env);
      && Answered(s')
      && (reply.Cached? ==> d == [] || (At(s.table, TreePath(d)).Match? && At(s.table, TreePath(d)).status == Allowed
                                     && At(s'.table, TreePath(d)).Match? && At(s'.table, TreePath(d)).status == Allowed))
  {
    MetIsMatched(h, s, d, env);
    CheckDomainIsLookup(h, s, d, env, true);
    var (s1, c) := CheckDomain(h, s, d, env);
    var s2 := if c.NoMatch? then Meet(s1, d, env) else s1;
    var k := A.Key(d, qtype);
    ServeKeeps(h, s2, k, Eligible(c, qtype), request, upstream, env);
    AnsweredMoves(s, Answer(h, s, d, qtype, request, upstream, env).0, k);
    var reply := Answer(h, s, d, qtype, request, upstream, env).1;
    if reply.Cached? { assert AnsweredFor(s, d); }
  }

  lemma StepAnswered(h: Hashes, s: State, step: Step)
    requires Inv(h, s, true) && Answered(s) && Enabled(s, step, true) && Lucky(step)
    ensures Answered(Apply(h, s, step))
  {
    match step
    case Query(d, qtype, request, upstream, env) => QueryAnswered(h, s, d, qtype, request, upstream, env);
    case GravityDone(d, result, when, fault) =>
      if result == Listed {
        PromotionMatches(s.table, d, when);
        DropAnswersKeeps(s.answers, h.answer, d);
        var s' := Apply(h, s, step);
        forall k: A.Key, p: A.Payload, ttl: nat | P.Stores(s'.answers, k, p, ttl) ensures AnsweredFor(s', k.domain) {
          assert AnsweredFor(s, k.domain);
        }
      }
    case Reloaded(t) =>
      P.ClearedStoresNothing(s.answers, A.Cyclic(h.answer, |s.answers|));
  }

  lemma {:induction false} RunAnswered(h: Hashes, s: State, steps: seq<Step>)
    requires Inv(h, s, true) && Answered(s) && Feasible(h, s, steps, true)
    requires forall i :: 0 <= i < |steps| ==> Lucky(steps[i])
    ensures Inv(h, Run(h, s, steps), true) && Answered(Run(h, s, steps))
    decreases |steps|
  {
    if steps != [] {
      StepKeeps(h, s, steps[0], true);
      StepAnswered(h, s, steps[0]);
      RunAnswered(h, Apply(h, s, steps[0]), steps[1..]);
    }
  }

  // Over every run in which the tree's allocations succeed, a reply built from
  // the answer cache is for a name the tree allows at that moment.
  lemma ServedAreAllowed(h: Hashes, s: State, steps: seq<Step>, d: Name, qtype: nat, request: Packet, upstream: Packet, env: Env)
    requires Fresh(s) && Feasible(h, s, steps, true) && HostName(d) && d != []
    requires env.review.NoFault? && forall i :: 0 <= i < |steps| ==> Lucky(steps[i])
    ensures var t := Run(h, s, steps);
      var (u, reply) := Answer(h, t, d, qtype, request, upstream, env);
      reply.Cached? ==>
        && At(t.table, TreePath(d)).Match? && At(t.table, TreePath(d)).status == Allowed
        && At(u.table, TreePath(d)).Match? && At(u.table, TreePath(d)).status == Allowed
  {
    FreshInv(h, s);
    RunAnswered(h, s, steps);
    QueryAnswered(h, Run(h, s, steps), d, qtype, request, upstream, env);
  }

  // Whatever fails, and whatever the name: no cached answer is ever served for a
  // name the tree blocks or has under review.
  lemma ServedNeverBlocked(h: Hashes, s: State, steps: seq<Step>, d: Name, qtype: nat, request: Packet, upstream: Packet, env: Env, lossless: bool)
    requires Fresh(s) && Feasible(h, s, steps, lossless)
    ensures var t := Run(h, s, steps);
      Answer(h, t, d, qtype, request, upstream, env).1.Cached? ==>
        var c := At(t.table, TreePath(d)); c.Match? ==> c.status == Allowed
  {
    FreshInv(h, s);
    RunKeeps(h, s, steps, lossless);
    var t := Run(h, s, steps);
    CheckDomainIsLookup(h, t, d, env, lossless);
    var (t1, c) := CheckDomain(h, t, d, env);
    var t2 := if c.NoMatch? then Meet(t1, d, env) else t1;
    NotEligible(h, t2, A.Key(d, qtype), Eligible(c, qtype), request, upstream, env);
  }

  lemma NotEligible(h: Hashes, s: State, k: A.Key, eligible: bool, request: Packet, upstream: Packet, env: Env)
    requires Sized(s)
    ensures Serve(h, s, k, eligible, request, upstream, env).1.Cached? ==> eligible
  {
  }

  // The empty name can never be matched, so a live answer for it is served all the
  // same.
  lemma EmptyNameServedUnmatched(h: Hashes, s: State, qtype: nat, request: Packet, upstream: Packet, env: Env, lossless: bool)
    requires Inv(h, s, lossless) && (qtype == A_RECORD || qtype == AAAA_RECORD)
    requires var hit := LookAnswer(s.answers, h.answer, A.Key([], qtype), env.probed).1; hit.Some? && Roomy(request, hit.value.0)
    ensures Answer(h, s, [], qtype, request, upstream, env).1.Cached?
    ensures At(s.table, TreePath([])) == NoMatch
  {
    CheckDomainIsLookup(h, s, [], env, lossless);
  }

  const QUIET: Env := Env(0, 0, 0, 0, 0, 0, 0.0, [], NoFault, false, false)

  // An unmatched name whose REVIEW entry could not be set, or that has no place in
  // the tree, is unmatched still, and no answer has come or gone.
  lemma Unflagged(h: Hashes, s: State, d: Name, env: Env)
    requires Inv(h, s, false) && HostName(d) && At(s.table, TreePath(d)).NoMatch?
    requires env.review.NoFault? ==> d == []
    ensures Sized(s) && AnswersOk(s.answers, h.answer)
    ensures var (s1, c) := CheckDomain(h, s, d, env);
      var s2 := Meet(s1, d, env);
      c.NoMatch? && s2.answers == s.answers && At(s2.table, TreePath(d)).NoMatch?
  {
    hide CheckDomain, At, Coherent;
    CheckDomainIsLookup(h, s, d, env, false);
    var (s1, c) := CheckDomain(h, s, d, env);
    MeetKeeps(h, s1, d, env, false);
    UnmatchedHasNoEntry(s1.table, TreePath(d));
    if TreePath(d) != [] {
      assert TreePath(d) !in s1.table;
      assert s1.table - {TreePath(d)} == s1.table;
      assert InsertLive(s1.table, d, ReviewEntry(env), env.review) == s1.table;
    }
    assert Meet(s1, d, env).table == s1.table;
  }

  // An answer that has just been stored is found.
  lemma StoredAnswer(a: A.ASlots, hash: A.Key -> nat, k: A.Key, p: A.Payload, ttl: nat)
    requires AnswersOk(a, hash) && A.Accepts(k.domain, p, ttl) && ttl <= W.U32_MAX
    ensures LookAnswer(StoreAnswer(a, hash, k, p, ttl, 0), hash, k, 0).1 == Some((p, ttl))
  {
    var lay := A.Cyclic(hash, |a|);
    var e := P.Used(k, hash(k), 0 as P.U64, ttl, p);
    P.InsertedStores(a, lay, e, 0);
    P.InsertEffect(a, lay, e, 0);
    var u := P.Inserted(a, A.Window(hash(k), |a|), e, 0).0;
    var i :| 0 <= i < |u| && u[i] == e;
    P.ProbeIsScan(u, lay, k);
  }

  lemma ClearLookAnswer(a: A.ASlots, hash: A.Key -> nat, k: A.Key)
    requires |a| >= A.PROBE_WINDOW && forall i :: 0 <= i < |a| ==> a[i].Empty?
    ensures LookAnswer(a, hash, k, 0) == (a, None)
  {
    A.WindowOk(hash(k), |a|);
  }

  // What the Pi might say to a query: one A record.
  const ONE_ADDRESS: A.Payload := A.Payload([[198, 51, 100, 1]], 1, 4)

  // A query for d and nothing else.
  ghost predicate PlainQuery(request: Packet, d: Name) {
    exists ls: seq<Label>, e: nat :: Asks(request, ls, A_RECORD, e) && Join(ls) == d && |request| == e + 5 && U16(request, 4) == 1
  }

  lemma PlainReply(request: Packet, d: Name)
    requires PlainQuery(request, d) && |d| <= A.MAX_DOMAIN
    ensures HostName(d)
    ensures |request| >= HEADER
    ensures var reply := W.CachedResponse(request, A_RECORD, ONE_ADDRESS, 300);
      reply != [] && W.Cacheable(reply, A_RECORD) == Some((ONE_ADDRESS, 300))
  {
    hide W.Cacheable, W.CachedResponse;
    var ls: seq<Label>, e: nat :| Asks(request, ls, A_RECORD, e) && Join(ls) == d && |request| == e + 5 && U16(request, 4) == 1;
    forall j | 0 <= j < |ls| ensures |ls[j]| < 192 { LabelInName(ls, j); }
    assert ONE_ADDRESS.records[0][..4] == [198, 51, 100, 1];
    assert W.Rows(ONE_ADDRESS) == ONE_ADDRESS.records;
    W.AskedQueryRoundTrip(request, ls, A_RECORD, e, ONE_ADDRESS, 300);
    LongReply(request);
  }

  lemma LongReply(request: Packet)
    requires |request| >= HEADER
    ensures W.CachedResponse(request, A_RECORD, ONE_ADDRESS, 300) != []
  {
  }

  // A label is no longer than the name.
  lemma {:induction false} LabelInName(ls: seq<Label>, j: nat)
    requires j < |ls|
    ensures |ls[j]| <= |Join(ls)|
  {
    if j < |ls| - 1 { LabelInName(ls[..|ls| - 1], j); }
  }

  // From a fresh start: a query for an unmatched name whose REVIEW entry cannot be
  // set is answered upstream, and the next one from the cache, with nothing in the
  // tree to allow it.  So it is for the root name, whatever can be set.
  lemma UnflaggedIsServed(h: Hashes, s: State, d: Name, request: Packet, fault: Fault)
    requires Fresh(s) && PlainQuery(request, d) && |request| <= 4096 && |d| <= A.MAX_DOMAIN
    requires At(s.table, TreePath(d)).NoMatch? && (fault.NoFault? ==> d == [])
    ensures |request| >= HEADER
    ensures var env := QUIET.(review := fault);
      var reply := W.CachedResponse(request, A_RECORD, ONE_ADDRESS, 300);
      var (t, first) := Answer(h, s, d, A_RECORD, request, reply, env);
      && first == Relayed(reply)
      && Answer(h, t, d, A_RECORD, request, [], env).1 == Cached(ONE_ADDRESS, 300)
      && At(t.table, TreePath(d)) == NoMatch
  {
    hide CheckDomain, Meet, W.CachedResponse, W.Cacheable, Inv, P.Inv, LookAnswer, StoreAnswer, At, PlainQuery, HostName;
    PlainReply(request, d);
    FreshInv(h, s);
    var env := QUIET.(review := fault);
    var reply := W.CachedResponse(request, A_RECORD, ONE_ADDRESS, 300);
    var k := A.Key(d, A_RECORD);
    Unflagged(h, s, d, env);
    ClearLookAnswer(s.answers, h.answer, k);
    StoredAnswer(s.answers, h.answer, k, ONE_ADDRESS, 300);
    var t := Answer(h, s, d, A_RECORD, request, reply, env).0;
    AnswerKeeps(h, s, d, A_RECORD, request, reply, env, false);
    Unflagged(h, t, d, env);
  }

  lemma EmptyNameIsServed(h: Hashes, s: State)
    requires Fresh(s)
    ensures var reply := W.CachedResponse(W.ROOT_QUERY, A_RECORD, ONE_ADDRESS, 300);
      var (t, first) := Answer(h, s, [], A_RECORD, W.ROOT_QUERY, reply, QUIET);
      && first == Relayed(reply)
      && Answer(h, t, [], A_RECORD, W.ROOT_QUERY, [], QUIET).1 == Cached(ONE_ADDRESS, 300)
      && At(t.table, TreePath([])) == NoMatch
  {
    hide W.CachedResponse, Answer;
    W.RootQuery();
    var none: seq<Label> := [];
    assert Asks(W.ROOT_QUERY, none, A_RECORD, HEADER) && Join(none) == [];
    assert PlainQuery(W.ROOT_QUERY, []);
    UnflaggedIsServed(h, s, [], W.ROOT_QUERY, NoFault);
    assert QUIET.(review := NoFault) == QUIET;
  }

  // ------------------------------------------------------------------
  // Reloads while a check is in flight
  // ------------------------------------------------------------------

  lemma ClearedLook(v: V.VSlots, hash: Name -> nat, d: Name)
    requires |v| > 0
    ensures LookVerdict(P.Cleared(v), hash, d, 0) == (P.Cleared(v), None)
  {
    V.WholeOk(hash, |v|);
  }

  // What has just been stored is found.
  lemma StoredLook(v: V.VSlots, hash: Name -> nat, d: Name, action: V.Action, ttl: nat)
    requires VerdictsOk(v, hash) && |d| <= V.MAX_DOMAIN && 0 < ttl <= W.U32_MAX
    ensures LookVerdict(StoreVerdict(v, hash, d, action, ttl, 0), hash, d, 0).1 == Some((action, ttl))
  {
    var lay := V.Linear(hash, |v|);
    var e := P.Used(d, hash(d), 0 as P.U64, ttl, action);
    P.InsertedStores(v, lay, e, 0);
    P.InsertEffect(v, lay, e, 0);
    var u := P.Inserted(v, P.Whole(|v|), e, 0).0;
    var i :| 0 <= i < |u| && u[i] == e;
    P.ProbeIsScan(u, lay, d);
  }

  // The first query after a reload caches the decision.
  lemma FirstQuery(h: Hashes, s: State, d: Name, t: Table)
    requires Sound(h, s) && HostName(d) && |d| <= V.MAX_DOMAIN && Decided(At(t, TreePath(d)))
    ensures var c := At(t, TreePath(d));
      var s1 := Reload(s, t);
      && Sized(s1)
      && var s2 := Answer(h, s1, d, A_RECORD, [], [], QUIET).0;
        && s2.table == Touch(t, TreePath(d), 0) && s2.running == s.running
        && LookVerdict(s2.verdicts, h.verdict, d, 0).1 == Some((ActionOf(c.status), CacheTtl(c.status, c.ttl)))
  {
    hide Touch, At, LookVerdict, StoreVerdict, Serve, P.Inv, P.Stores, Coherent;
    var c, s1 := At(t, TreePath(d)), Reload(s, t);
    ReloadSound(h, s, t);
    SizedSound(h, s1);
    ClearedLook(s.verdicts, h.verdict, d);
    CacheTtlIsWord(t, TreePath(d));
    StoredLook(s1.verdicts, h.verdict, d, ActionOf(c.status), CacheTtl(c.status, c.ttl));
    var (s2, c') := CheckDomain(h, s1, d, QUIET);
    CheckDomainSound(h, s1, d, QUIET);
    AnswersSound(h, s2);
    ServeKeeps(h, s2, A.Key(d, A_RECORD), Eligible(c', A_RECORD), [], [], QUIET);
  }

  lemma FromCacheSame(t: Table, p: Path)
    requires Decided(At(t, p))
    ensures var c := At(t, p); Same(FromCache(ActionOf(c.status), CacheTtl(c.status, c.ttl)), c)
  {
  }

  // A touch makes nothing safe that was not.
  lemma TouchedUnsafe(t: Table, p: Path, seen: nat, lossless: bool)
    requires !SafeFor(t, p, lossless)
    ensures !SafeFor(Touch(t, p, seen), p, lossless)
  {
    var u := Touch(t, p, seen);
    TouchKeeps(t, p, seen);
    if SafeFor(u, p, lossless) {
      forall j: nat, s: Status | 0 < j <= |p| ensures EntryAt(t, p, j, s) <==> EntryAt(u, p, j, s) {
      }
      SafeSeesDecisions(u, t, p, lossless);
    }
  }

  // Whatever is unsafe, some outcome of a promotion changes its decision.
  lemma UnsafeHurts(t: Table, d: Name, lossless: bool) returns (fault: Fault)
    requires !SafeFor(t, TreePath(d), lossless)
    ensures lossless ==> fault.NoFault?
    ensures Decided(At(t, TreePath(d)))
    ensures !Same(At(t, TreePath(d)), At(InsertLive(t, d, GravityEntry(0), fault), TreePath(d)))
  {
    var p := TreePath(d);
    SafeIsBoth(t, p);
    if !Harmless(t, p) {
      BlockingHurts(t, p, GravityEntry(0));
      fault := NoFault;
    } else {
      LosingHurts(t, p);
      fault := EntryFault;
    }
  }

  // A reload, one query for d, and the end of its check.
  function ReloadInFlight(d: Name, t: Table, fault: Fault): seq<Step> {
    [Reloaded(t), Query(d, A_RECORD, [], [], QUIET), GravityDone(d, Listed, 0, fault)]
  }

  ghost predicate AllPossible(h: Hashes, s: State, steps: seq<Step>)
    requires Sized(s)
    decreases |steps|
  {
    steps == [] || (Possible(s, steps[0]) && AllPossible(h, Apply(h, s, steps[0]), steps[1..]))
  }

  ghost predicate Disagrees(h: Hashes, s: State, d: Name)
    requires Sized(s)
  {
    !Same(CheckDomain(h, s, d, QUIET).1, At(s.table, TreePath(d)))
  }

  // The condition on reloads is exact: after a reload that leaves a name under
  // check unsafe, one query for it and some end of its check leave check_domain
  // disagreeing with the tree; in lossless runs as well.
  lemma UnsafeReloadDisagrees(h: Hashes, s: State, d: Name, t: Table, lossless: bool) returns (fault: Fault)
    requires Sound(h, s) && d in s.running && !SafeName(t, d, lossless)
    ensures Sized(s) && (lossless ==> fault.NoFault?)
    ensures AllPossible(h, s, ReloadInFlight(d, t, fault))
    ensures Disagrees(h, Run(h, s, ReloadInFlight(d, t, fault)), d)
  {
    hide Touch, At, Answer, LookVerdict, SafeFor, Run, AllPossible, VerdictsOk, AnswersOk, InsertLive, DropAnswers;
    SizedSound(h, s);
    assert Awaited(s, d);
    var p := TreePath(d);
    var touched := Touch(t, p, 0);
    TouchedUnsafe(t, p, 0, lossless);
    fault := UnsafeHurts(touched, d, lossless);
    TouchSame(t, p, 0);
    FirstQuery(h, s, d, t);
    FromCacheSame(t, p);
    var second, third := Query(d, A_RECORD, [], [], QUIET), GravityDone(d, Listed, 0, fault);
    RunThree(h, s, Reloaded(t), second, third);
    var s3 := Apply(h, Apply(h, Reload(s, t), second), third);
    assert s3.table == InsertLive(touched, d, GravityEntry(0), fault);
    assert !Same(CheckDomain(h, s3, d, QUIET).1, At(s3.table, p));
  }

  lemma RunThree(h: Hashes, s: State, a: Step, b: Step, c: Step)
    requires Sized(s)
    ensures Run(h, s, [a, b, c]) == Apply(h, Apply(h, Apply(h, s, a), b), c)
    ensures AllPossible(h, s, [a, b, c]) <==>
      Possible(s, a) && Possible(Apply(h, s, a), b) && Possible(Apply(h, Apply(h, s, a), b), c)
  {
    hide Apply, Possible;
    assert [a, b, c][1..] == [b, c] && [b, c][1..] == [c] && [c][1..] == [];
    var s1 := Apply(h, s, a);
    var s2 := Apply(h, s1, b);
    assert Run(h, s2, [c]) == Apply(h, s2, c);
    assert Run(h, s1, [b, c]) == Run(h, s2, [c]);
    assert AllPossible(h, s2, [c]) <==> Possible(s2, c);
    assert AllPossible(h, s1, [b, c]) <==> Possible(s1, b) && AllPossible(h, s2, [c]);
  }

  // A query for a name never seen puts it under check.
  lemma FirstSight(h: Hashes, s: State, d: Name, env: Env)
    requires Fresh(s) && HostName(d) && At(s.table, TreePath(d)).NoMatch? && env.claimed && env.spawned
    ensures var s1 := Answer(h, s, d, A_RECORD, [], [], env).0; Sound(h, s1) && d in s1.running
  {
    hide CheckDomain, At, Coherent, VerdictsOk, AnswersOk, InsertLive, Serve;
    FreshInv(h, s);
    assert Inv(h, s, false);
    SizedSound(h, s);
    AnswerSound(h, s, d, A_RECORD, [], [], env);
    CheckDomainIsLookup(h, s, d, env, false);
    CheckDomainSound(h, s, d, env);
    var (s1, c) := CheckDomain(h, s, d, env);
    MeetSound(h, s1, d, env);
    var s2 := Meet(s1, d, env);
    assert s2.running == {d};
    SizedSound(h, s2);
    AnswersSound(h, s2);
    ServeKeeps(h, s2, A.Key(d, A_RECORD), Eligible(c, A_RECORD), [], [], env);
  }

  // A table that blocks d with a TTL of its own.
  function BlocksFor(d: Name, ttl: Word): Table {
    map[TreePath(d) := Entry(Blocked, ttl, 0, 0, SOURCE_GRAVITY, 0.0, None)]
  }

  lemma OwnTtlIsUnsafe(d: Name, ttl: Word, lossless: bool)
    requires TreePath(d) != [] && Effective(ttl) != W.DEFAULT_BLOCK_TTL
    ensures !SafeFor(BlocksFor(d, ttl), TreePath(d), lossless)
  {
    var t, p := BlocksFor(d, ttl), TreePath(d);
    assert p[..|p|] == p;
    AtIs(t, p);
    assert EntryAt(t, p, |p|, Blocked);
    forall j | 0 < j <= |p| ensures !EntryAt(t, p, j, Allowed) {}
    DeepestIs(t, p, |p|, Blocked, |p|);
    SafeIsBoth(t, p);
  }

  // A run from a fresh start that gets there, without a single failure: the name
  // is met and put under check, a reload blocks it for ten minutes, it is asked for
  // again, and its check finds it listed.
  lemma ReloadBreaksFreshStart(h: Hashes, s: State, d: Name)
    requires Fresh(s) && HostName(d) && d != [] && |d| <= V.MAX_DOMAIN && At(s.table, TreePath(d)).NoMatch?
    ensures var steps := [Query(d, A_RECORD, [], [], QUIET.(claimed := true, spawned := true))] + ReloadInFlight(d, BlocksFor(d, 600), NoFault);
      && AllPossible(h, s, steps)
      && Disagrees(h, Run(h, s, steps), d)
  {
    hide At, Answer, Run, AllPossible, SafeFor, Disagrees, HostName;
    var env := QUIET.(claimed := true, spawned := true);
    var first := Query(d, A_RECORD, [], [], env);
    var rest := ReloadInFlight(d, BlocksFor(d, 600), NoFault);
    if TreePath(d) == [] { NoPath(d); }
    FirstSight(h, s, d, env);
    OwnTtlIsUnsafe(d, 600, true);
    var fault := UnsafeReloadDisagrees(h, Apply(h, s, first), d, BlocksFor(d, 600), true);
    OneMore(h, s, first, rest);
  }

  lemma OneMore(h: Hashes, s: State, first: Step, rest: seq<Step>)
    requires Sized(s) && Possible(s, first)
    ensures Run(h, s, [first] + rest) == Run(h, Apply(h, s, first), rest)
    ensures AllPossible(h, s, [first] + rest) <==> AllPossible(h, Apply(h, s, first), rest)
  {
    assert ([first] + rest)[1..] == rest;
  }
}
