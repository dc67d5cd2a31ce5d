// The proxy as it runs: the published tree, the two caches and the asked cache,
// and the operations that tie them together.  Every operation is one step of the
// state machine in module ProxyModel, and keeps its invariant.
module Proxy {
  import opened Prelude
  import opened Names
  import opened Question
  import opened Forest
  import opened Verdict
  import opened Decisions
  import AskOnce
  import opened AskedCache
  import opened RadixTree
  import M = ProxyModel
  import V = VerdictCache
  import A = AnswerCache
  import P = ProbeTable
  import W = AnswerWire
  import L = ProxyLaws
  import WireLaws

  const BUFFER_SIZE: nat := 4096
  const CACHE_CAPACITY: nat := 4096

  lemma Capacity()
    ensures P.IsPowerOf2(CACHE_CAPACITY)
  {
    assert P.IsPowerOf2(1) && P.IsPowerOf2(2) && P.IsPowerOf2(4) && P.IsPowerOf2(8) && P.IsPowerOf2(16) && P.IsPowerOf2(32);
    assert P.IsPowerOf2(64) && P.IsPowerOf2(128) && P.IsPowerOf2(256) && P.IsPowerOf2(512) && P.IsPowerOf2(1024) && P.IsPowerOf2(2048);
  }

  lemma NotRunning(s: M.State, d: Name)
    requires M.Asking(s)
    ensures d !in s.asked ==> d !in s.running
  {
    if d in s.running { assert M.Awaited(s, d); }
  }

  lemma OwnersApart(tree: Tree, asked: AskedCache)
    requires tree.Valid() && asked.Valid()
    ensures tree !in tree.own && asked !in asked.own
  {
  }

  class Proxy {
    const tree: Tree
    const verdicts: V.VerdictCache
    const answers: A.AnswerCache
    const asked: AskedCache
    var permits: nat
    ghost var running: set<Name>

    ghost function Hashes(): M.Hashes {
      M.Hashes(verdicts.hash, answers.hash)
    }

    // What the proxy's memory stands for.
    ghost function State(): M.State
      reads this, tree, verdicts.slots, answers.slots, asked
    {
      M.State(tree.Table(), verdicts.slots[..], answers.slots[..], asked.asked, running)
    }

    ghost function Parts(): set<object> {
      {verdicts, verdicts.slots, answers, answers.slots}
    }

    // Every component in order, and none shares memory with another.
    ghost predicate Built()
      reads this, tree, tree.own, verdicts, verdicts.slots, answers, answers.slots, asked, asked.own
    {
      && tree.Valid() && tree.root != null && verdicts.Valid() && answers.Valid() && asked.Valid()
      && (verdicts as object) != answers && (verdicts.slots as object) != answers.slots
      && {this as object, tree, asked} !! Parts() !! tree.own !! asked.own
      && permits == AskOnce.MAX_CHECKS - |running| && |running| <= AskOnce.MAX_CHECKS
    }

    ghost predicate Valid()
      reads this, tree, tree.own, verdicts, verdicts.slots, answers, answers.slots, asked, asked.own
    {
      Built() && M.Sound(Hashes(), State())
    }

    // The caches agree with the tree, and the names under check are safe.
    ghost predicate Coherent(lossless: bool)
      reads this, tree, verdicts.slots, answers.slots, asked
    {
      M.Inv(Hashes(), State(), lossless)
    }

    // proxy_init past the publishing of the first tree.
    constructor (tree: Tree, verdictHash: Name -> nat, answerHash: A.Key -> nat, nameHash: Name -> nat)
      requires tree.Valid() && tree.root != null
      ensures Valid() && (forall lossless :: Coherent(lossless)) && this.tree == tree && M.Fresh(State())
      ensures verdicts.slots.Length == answers.slots.Length == 4096
      ensures State().table == tree.Table() && Hashes() == M.Hashes(verdictHash, answerHash)
    {
      hide Tree.Valid, AskedCache.Valid, A.AnswerCache.Valid, V.VerdictCache.Valid, P.NumUsed, P.Inv, M.Sound, M.Coherent, M.Answered, P.IsPowerOf2;
      Capacity();
      this.tree := tree;
      verdicts := new V.VerdictCache(verdictHash, CACHE_CAPACITY);
      answers := new A.AnswerCache(answerHash, CACHE_CAPACITY);
      asked := new AskedCache(nameHash);
      permits, running := AskOnce.MAX_CHECKS, {};
      new;
      M.FreshInv(Hashes(), State());
      assert M.Inv(Hashes(), State(), false);
      OwnersApart(tree, asked);
    }

    // ----------------------------------------------------------------
    // One component at a time
    // ----------------------------------------------------------------

    method LookVerdict(d: Name, now: P.U64) returns (hit: Option<(V.Action, nat)>)
      requires Built()
      modifies verdicts, verdicts.slots
      ensures Built()
      ensures State() == old(State()).(verdicts := M.LookVerdict(old(State()).verdicts, verdicts.hash, d, now).0)
      ensures hit == M.LookVerdict(old(State()).verdicts, verdicts.hash, d, now).1
    {
      hide Tree.Valid, AskedCache.Valid, A.AnswerCache.Valid, P.Looked, P.Whole, P.NumUsed, P.Inv;
      V.WholeOk(verdicts.hash, verdicts.slots.Length);
      hit := verdicts.Lookup(d, now);
    }

    method StoreVerdict(d: Name, action: V.Action, ttl: nat, now: P.U64)
      requires Built()
      modifies verdicts, verdicts.slots
      ensures Built()
      ensures State() == old(State()).(verdicts := M.StoreVerdict(old(State()).verdicts, verdicts.hash, d, action, ttl, now))
    {
      hide Tree.Valid, AskedCache.Valid, A.AnswerCache.Valid, P.Inserted, P.Whole, P.NumUsed, P.Inv;
      V.WholeOk(verdicts.hash, verdicts.slots.Length);
      var ok := verdicts.Insert(d, action, ttl, now);
    }

    method WalkTree(d: Name, seen: nat) returns (c: Check)
      requires Built()
      modifies tree`at, tree`tree, tree`own, tree.own
      ensures Built() && tree.own == old(tree.own)
      ensures State() == old(State()).(table := Touch(old(State()).table, TreePath(d), seen))
      ensures c == At(old(State()).table, TreePath(d))
    {
      hide Tree.Valid, AskedCache.Valid, A.AnswerCache.Valid, V.VerdictCache.Valid, Touch, Matched, TreePath;
      var r := tree.Lookup(d, seen);
      c := if r.None? then NoMatch else Match(r.value.status, r.value.ttl);
    }

    // radix_tree_insert_live on the published tree; which allocation failed, if
    // one did, is the ghost result.
    method InsertLive(d: Name, e: Entry) returns (rc: int, ghost fault: Fault)
      requires Built()
      modifies tree`at, tree`tree, tree`own, tree.own
      ensures Built() && fresh(tree.own - old(tree.own))
      ensures State() == old(State()).(table := M.InsertLive(old(State()).table, d, e, fault))
    {
      hide AskedCache.Valid, A.AnswerCache.Valid, V.VerdictCache.Valid, TreePath, Represents, Entries, InsertTable, Shape, Inserted;
      ghost var f := tree.tree;
      rc, fault := tree.InsertLive(d, e);
      if TreePath(d) != [] {
        InsertMeaning(f, tree.tree, TreePath(d), e, rc, fault);
      }
    }

    method LookAnswer(d: Name, qtype: nat, now: P.U64) returns (hit: Option<(A.Payload, nat)>)
      requires Built()
      modifies answers, answers.slots
      ensures Built()
      ensures var was := old(State());
        var (a, r) := M.LookAnswer(was.answers, answers.hash, A.Key(d, qtype), now);
        State() == was.(answers := a) && hit == r
    {
      hide Tree.Valid, AskedCache.Valid, V.VerdictCache.Valid, P.Looked, A.Window, P.NumUsed, P.Inv;
      A.WindowOk(answers.hash(A.Key(d, qtype)), answers.slots.Length);
      hit := answers.Lookup(d, qtype, now);
    }

    method StoreAnswer(d: Name, qtype: nat, p: A.Payload, ttl: nat, now: P.U64)
      requires Built()
      modifies answers, answers.slots
      ensures Built()
      ensures State() == old(State()).(answers := M.StoreAnswer(old(State()).answers, answers.hash, A.Key(d, qtype), p, ttl, now))
    {
      hide Tree.Valid, AskedCache.Valid, V.VerdictCache.Valid, P.Inserted, A.Window, P.NumUsed, P.Inv;
      A.WindowOk(answers.hash(A.Key(d, qtype)), answers.slots.Length);
      var ok := answers.Insert(d, qtype, p, ttl, now);
    }

    method DropAnswers(d: Name)
      requires Built()
      modifies answers, answers.slots
      ensures Built()
      ensures State() == old(State()).(answers := M.DropAnswers(old(State()).answers, answers.hash, d))
    {
      hide Tree.Valid, AskedCache.Valid, V.VerdictCache.Valid, P.NumUsed, P.Inv, A.BothInvalidated;
      A.CyclicOk(answers.hash, answers.slots.Length);
      var removed := answers.Invalidate(d);
    }

    method Claim(d: Name, gotMemory: bool) returns (fire: bool)
      requires Built()
      modifies asked`chains, asked`asked, asked`own, asked.buckets
      ensures Built() && fresh(asked.own - old(asked.own))
      ensures State() == old(State()).(asked := AskOnce.TryClaim(old(State()).asked, d, gotMemory).0)
      ensures fire == AskOnce.TryClaim(old(State()).asked, d, gotMemory).1
    {
      hide Tree.Valid, A.AnswerCache.Valid, V.VerdictCache.Valid;
      fire := asked.TryClaim(d, gotMemory, gotMemory);
    }

    method MarkDone(d: Name, succeeded: bool)
      requires Built()
      modifies asked`chains, asked`asked, asked.own
      ensures Built() && asked.own == old(asked.own)
      ensures State() == old(State()).(asked := AskOnce.MarkDone(old(State()).asked, d, succeeded))
    {
      hide Tree.Valid, A.AnswerCache.Valid, V.VerdictCache.Valid, AskOnce.MarkDone;
      asked.MarkDone(d, succeeded);
    }

    // ----------------------------------------------------------------
    // check_domain
    // ----------------------------------------------------------------

    method CheckDomain(d: Name, env: M.Env) returns (c: Check)
      requires Built()
      modifies tree`at, tree`tree, tree`own, tree.own, verdicts, verdicts.slots
      ensures Built() && tree.own == old(tree.own)
      ensures (State(), c) == M.CheckDomain(Hashes(), old(State()), d, env)
    {
      hide Built, M.LookVerdict, M.StoreVerdict, At, Touch, TreePath;
      assert M.Sized(State()) by { StateSized(); }
      var hit := LookVerdict(d, env.looked);
      if hit.Some? {
        return M.FromCache(hit.value.0, hit.value.1);
      }
      c := WalkTree(d, env.seen);
      if c.Match? && c.status != Review {
        var action := if c.status == Blocked then V.Block else V.Allow;
        var ttl := if c.status == Blocked then (if c.ttl != 0 then c.ttl else W.DEFAULT_BLOCK_TTL) else M.QUERY_CACHE_TTL;
        StoreVerdict(d, action, ttl, env.stored);
      }
    }

    lemma StateSized()
      requires Built()
      ensures M.Sized(State())
    {
    }

    // ----------------------------------------------------------------
    // process_request
    // ----------------------------------------------------------------

    method QueueGravityCheck(d: Name, spawned: bool)
      requires Built() && d !in running
      modifies this`permits, this`running, asked`chains, asked`asked, asked.own
      ensures Built() && asked.own == old(asked.own)
      ensures State() == if old(permits) == 0 then old(State()).(asked := AskOnce.MarkDone(old(State()).asked, d, false))
        else if spawned then old(State()).(running := old(State()).running + {d})
        else old(State())
    {
      hide Tree.Valid, AskedCache.Valid, A.AnswerCache.Valid, V.VerdictCache.Valid, AskOnce.MarkDone;
      if permits == 0 {
        MarkDone(d, false);
        return;
      }
      permits := permits - 1;
      if spawned {
        running := running + {d};
      } else {
        permits := permits + 1;
      }
    }

    // The first sight of a name: score and flag it, then ask the Pi once.
    method Meet(d: Name, env: M.Env) returns (ghost fault: Fault)
      requires Built() && M.Asking(State())
      modifies this`permits, this`running, tree`at, tree`tree, tree`own, tree.own, asked`chains, asked`asked, asked`own, asked.own
      ensures Built() && fresh(tree.own - old(tree.own)) && fresh(asked.own - old(asked.own))
      ensures State() == M.Meet(old(State()), d, env.(review := fault))
    {
      hide Built, M.InsertLive, AskOnce.MarkDone, M.Asking;
      NotRunning(State(), d);
      Layout();
      var rc;
      rc, fault := InsertLive(d, M.ReviewEntry(env));
      var fire := Claim(d, env.claimed);
      if fire {
        QueueGravityCheck(d, env.spawned);
      }
    }

    lemma Layout()
      requires Built()
      ensures asked !in tree.own && this !in tree.own && this !in asked.own && tree !in asked.own && asked.buckets in asked.own
      ensures permits == AskOnce.MAX_CHECKS - |running| && |running| <= AskOnce.MAX_CHECKS
    {
    }

    // From the answer cache if it may be used and knows, else from upstream.
    method Serve(d: Name, qtype: nat, eligible: bool, request: Packet, upstream: Packet, out: array<Byte>, env: M.Env) returns (n: nat, ghost reply: M.Reply)
      requires Built() && M.AnswersOk(State().answers, answers.hash)
      requires qtype < 65536 && HEADER <= |request| && |upstream| <= M.RESPONSE_BUF == out.Length && Apart(out)
      modifies answers, answers.slots, out
      ensures Built()
      ensures (State(), reply) == M.Serve(Hashes(), old(State()), A.Key(d, qtype), eligible, request, upstream, env)
      ensures n <= out.Length && Sent(out[..n], request, qtype, reply)
    {
      hide Built, M.LookAnswer, M.StoreAnswer, M.Forward, W.CachedResponse, W.Cacheable, M.AnswersOk;
      StateSized();
      var hit := None;
      if eligible {
        ghost var was := State();
        hit := LookAnswer(d, qtype, env.probed);
        M.LookAnswerKeeps(was.answers, answers.hash, A.Key(d, qtype), env.probed);
        if hit.Some? {
          HitIsOk(was.answers, answers.hash, A.Key(d, qtype), hit.value);
          n := W.CreateCachedAnswerResponse(request, out, qtype, hit.value.0, hit.value.1);
          if n > 0 {
            return n, M.Cached(hit.value.0, hit.value.1);
          }
        }
      }
      n, reply := Forward(d, qtype, eligible, upstream, out, env);
    }

    // What came back from the upstream goes to the client and, if it may be
    // cached, into the answer cache.
    method Forward(d: Name, qtype: nat, eligible: bool, upstream: Packet, out: array<Byte>, env: M.Env) returns (n: nat, ghost reply: M.Reply)
      requires Built() && |upstream| <= out.Length && Apart(out)
      modifies answers, answers.slots, out
      ensures Built()
      ensures (State(), reply) == M.Forward(Hashes(), old(State()), A.Key(d, qtype), eligible, upstream, env)
      ensures n <= out.Length && reply == (if upstream == [] then M.Silent else M.Relayed(upstream)) && out[..n] == upstream
    {
      hide Built, M.StoreAnswer, W.Cacheable, W.Copied, W.Collected, W.AnswerBuffer.Stored;
      StateSized();
      if upstream == [] {
        return 0, M.Silent;
      }
      W.Copy(out, 0, upstream);
      n, reply := |upstream|, M.Relayed(upstream);
      if eligible {
        var parsed := new W.AnswerBuffer();
        var ok := W.ParseAnswerRecords(upstream, qtype, parsed);
        if ok {
          StoreAnswer(d, qtype, parsed.Stored(), parsed.ttl, env.filled);
        }
      }
    }

    // One datagram from a client.  `allowed` is the rate limiter's answer; the
    // ghost results are the question read and the allocation that failed, if any.
    method ProcessRequest(request: Packet, allowed: bool, upstream: Packet, out: array<Byte>, env: M.Env)
      returns (n: nat, ghost reply: M.Reply, ghost ls: seq<Label>, ghost qtype: nat, ghost e: nat, ghost fault: Fault)
      requires Valid() && |request| <= BUFFER_SIZE && |upstream| <= BUFFER_SIZE
      requires out.Length == M.RESPONSE_BUF && Apart(out)
      modifies this`permits, this`running, tree`at, tree`tree, tree`own, tree.own, asked`chains, asked`asked, asked`own, asked.own
      modifies verdicts, verdicts.slots, answers, answers.slots, out
      ensures Valid() && fresh(tree.own - old(tree.own)) && fresh(asked.own - old(asked.own))
      ensures forall lossless :: old(Coherent(lossless)) ==> Coherent(lossless)
      ensures old(Coherent(true) || Coherent(false)) && allowed && !AsksNothing(request) ==>
        Answered(old(State()), State(), Join(ls), qtype, request, upstream, env.(review := fault), reply)
      ensures n <= out.Length && OnTheWire(out[..n], request, qtype, reply)
      ensures !allowed || AsksNothing(request) ==> State() == old(State()) && reply == M.Silent
      ensures allowed && !AsksNothing(request) ==>
        && Asks(request, ls, qtype, e)
        && (State(), reply) == M.Answer(Hashes(), old(State()), Join(ls), qtype, request, upstream, env.(review := fault))
    {
      hide Built, M.Inv, M.Sound, M.Answer, M.Sized, W.CachedResponse, Question.Spells, HostLabels, Fits, Join, TreePath, Answered, OnTheWire, Sent;
      n, reply, ls, qtype, e, fault := 0, M.Silent, [], 0, 0, NoFault;
      ghost var h, s := Hashes(), State();
      StateSized();
      NothingSent(out[..n], request, qtype);
      if !allowed {
        return;
      }
      var buffer := new Byte[DOMAIN_BUF];
      var ok, len, qtype', ls', e' := ParseQuery(request, buffer);
      if !ok {
        return;
      }
      ls, qtype, e := ls', qtype', e';
      AskedIsHost(request, ls, qtype, e);
      n, reply, fault := AnswerQuery(buffer[..len], qtype', request, upstream, out, env);
      SentBytes(out[..n], request, qtype, reply);
      AnsweredStep(h, s, Join(ls), qtype, request, upstream, env.(review := fault), State(), reply);
    }

    // process_request once the question is known.
    method AnswerQuery(d: Name, qtype: nat, request: Packet, upstream: Packet, out: array<Byte>, env: M.Env)
      returns (n: nat, ghost reply: M.Reply, ghost fault: Fault)
      requires Valid() && M.HostName(d) && qtype < 65536
      requires HEADER <= |request| <= BUFFER_SIZE && |upstream| <= BUFFER_SIZE
      requires out.Length == M.RESPONSE_BUF && Apart(out)
      modifies this`permits, this`running, tree`at, tree`tree, tree`own, tree.own, asked`chains, asked`asked, asked`own, asked.own
      modifies verdicts, verdicts.slots, answers, answers.slots, out
      ensures Valid() && fresh(tree.own - old(tree.own)) && fresh(asked.own - old(asked.own))
      ensures forall lossless :: old(Coherent(lossless)) ==> Coherent(lossless)
      ensures (State(), reply) == M.Answer(Hashes(), old(State()), d, qtype, request, upstream, env.(review := fault))
      ensures n <= out.Length && Sent(out[..n], request, qtype, reply)
    {
      hide Built, M.CheckDomain, M.Meet, M.Serve, M.Inv, M.Sound, At, TreePath, W.CachedResponse, P.Inv, M.Asking, M.AnswersOk;
      ghost var h, s := Hashes(), State();
      fault := NoFault;
      StateSized();
      Layout();
      M.CheckDomainSound(h, s, d, env);
      var c := CheckDomain(d, env);
      if c.Match? && c.status == Blocked {
        var ttl := if c.ttl != 0 then c.ttl else W.DEFAULT_BLOCK_TTL;
        n := W.CreateBlockedResponse(request, out, ttl);
        reply := M.Sinkhole(ttl);
      } else {
        n, reply, fault := AnswerUnblocked(c, d, qtype, request, upstream, out, env);
      }
      SameButFault(h, s, d, env, fault);
      AnswerStep(h, s, d, qtype, request, upstream, env.(review := fault));
    }

    // The rest of process_request for a name that is not blocked.
    method AnswerUnblocked(c: Check, d: Name, qtype: nat, request: Packet, upstream: Packet, out: array<Byte>, env: M.Env)
      returns (n: nat, ghost reply: M.Reply, ghost fault: Fault)
      requires Valid() && M.HostName(d) && qtype < 65536 && (c.Match? ==> c.status != Blocked)
      requires HEADER <= |request| <= BUFFER_SIZE && |upstream| <= BUFFER_SIZE
      requires out.Length == M.RESPONSE_BUF && Apart(out)
      modifies this`permits, this`running, tree`at, tree`tree, tree`own, tree.own, asked`chains, asked`asked, asked`own, asked.own
      modifies answers, answers.slots, out
      ensures Built() && fresh(tree.own - old(tree.own)) && fresh(asked.own - old(asked.own))
      ensures var env' := env.(review := fault);
        var s := if c.NoMatch? then M.Meet(old(State()), d, env') else old(State());
        && M.Sized(s)
        && (State(), reply) == M.Serve(Hashes(), s, A.Key(d, qtype), M.Eligible(c, qtype), request, upstream, env')
      ensures n <= out.Length && Sent(out[..n], request, qtype, reply)
    {
      hide Built, M.Meet, M.Serve, M.Sound, At, TreePath, W.CachedResponse, P.Inv, M.Asking, M.AnswersOk;
      ghost var h, s := Hashes(), State();
      fault := NoFault;
      Layout();
      SoundParts(h, s);
      if c.NoMatch? {
        fault := Meet(d, env);
        M.MeetSound(h, s, d, env.(review := fault));
        SoundParts(h, State());
      }
      ghost var s2 := State();
      StateSized();
      ServeSameButFault(h, s2, A.Key(d, qtype), M.Eligible(c, qtype), request, upstream, env, fault);
      n, reply := Serve(d, qtype, M.Eligible(c, qtype), request, upstream, out, env);
    }

    // ----------------------------------------------------------------
    // gravity_check_thread after its HTTP call, and a reload
    // ----------------------------------------------------------------

    method FinishGravityCheck(d: Name, result: M.Gravity, when: nat) returns (ghost fault: Fault)
      requires Valid() && d in running
      modifies this`permits, this`running, tree`at, tree`tree, tree`own, tree.own, asked`chains, asked`asked, asked.own
      modifies answers, answers.slots
      ensures Valid() && fresh(tree.own - old(tree.own)) && asked.own == old(asked.own)
      ensures forall lossless :: old(Coherent(lossless)) && (lossless ==> !fault.EntryFault?) ==> Coherent(lossless)
      ensures State() == M.Finish(Hashes(), old(State()), d, result, when, fault)
      ensures L.FinishedAs(old(State()), State(), d, result, fault)
    {
      hide Built, M.Inv, M.Sound, M.InsertLive, M.DropAnswers, AskOnce.MarkDone, L.FinishedAs;
      ghost var h, s := Hashes(), State();
      fault := NoFault;
      StateSized();
      Layout();
      if result == M.Listed {
        var rc;
        rc, fault := InsertLive(d, M.GravityEntry(when));
        DropAnswers(d);
      }
      Layout();
      MarkDone(d, result != M.Unreachable);
      Release(d);
      FinishStep(h, s, d, result, when, fault);
      L.FinishMeans(h, s, d, result, when, fault);
    }

    // ReleaseSemaphore.
    method Release(d: Name)
      requires Built() && d in running
      modifies this`permits, this`running
      ensures Built() && State() == old(State()).(running := old(State()).running - {d})
    {
      hide Tree.Valid, AskedCache.Valid, A.AnswerCache.Valid, V.VerdictCache.Valid;
      permits := permits + 1;
      running := running - {d};
    }

    // The end of reload_thread_proc's loop, for a builder whose root could be
    // allocated.  Whatever it brings, the caches agree with it; they go on doing so
    // if it leaves every name under check safe.
    method Reload(builder: Tree)
      requires Valid() && builder.Valid() && builder.root != null && Separate(builder)
      modifies tree, builder, builder.own, verdicts, verdicts.slots, answers, answers.slots
      ensures Valid()
      ensures State() == M.Reload(old(State()), old(builder.Table()))
      ensures tree.Table() == old(builder.Table()) && asked.asked == old(asked.asked) && running == old(running)
      ensures forall i :: 0 <= i < verdicts.slots.Length ==> verdicts.slots[..][i].Empty?
      ensures forall i :: 0 <= i < answers.slots.Length ==> answers.slots[..][i].Empty?
      ensures forall lossless ::
        old(Coherent(lossless) && M.Enabled(State(), M.Reloaded(builder.Table()), lossless)) ==> Coherent(lossless)
    {
      hide Built, M.Inv, M.Sound, M.Enabled;
      ghost var h, s, t := Hashes(), State(), builder.Table();
      ReloadStep(h, s, t);
      SwapTree(builder);
      ClearVerdicts();
      ClearAnswers();
    }

    method SwapTree(builder: Tree)
      requires Built() && builder.Valid() && builder.root != null && Separate(builder)
      modifies tree, builder, builder.own
      ensures Built() && State() == old(State()).(table := old(builder.Table()))
    {
      hide Tree.Valid, AskedCache.Valid, A.AnswerCache.Valid, V.VerdictCache.Valid, Entries;
      OwnersApart(builder, asked);
      tree.TakeOver(builder);
    }

    method ClearVerdicts()
      requires Built()
      modifies verdicts, verdicts.slots
      ensures Built() && State() == old(State()).(verdicts := P.Cleared(old(State()).verdicts))
    {
      hide Tree.Valid, AskedCache.Valid, A.AnswerCache.Valid, P.NumUsed, P.Inv;
      verdicts.Clear();
    }

    method ClearAnswers()
      requires Built()
      modifies answers, answers.slots
      ensures Built() && State() == old(State()).(answers := P.Cleared(old(State()).answers))
    {
      hide Tree.Valid, AskedCache.Valid, V.VerdictCache.Valid, P.NumUsed, P.Inv;
      answers.Clear();
    }

    // The builder and its nodes belong to no component.
    ghost predicate Separate(builder: Tree)
      reads this, tree, asked, builder
    {
      {builder as object} + builder.own !! {this as object, tree, asked} + Parts() + tree.own + asked.own
    }

    // The buffer a reply is built in belongs to no component.
    ghost predicate Apart(out: array<Byte>)
      reads this, tree, asked
    {
      (out as object) !in {this as object, tree, asked} + Parts() + tree.own + asked.own
    }
  }

  lemma AskedIsHost(request: Packet, ls: seq<Label>, qtype: nat, e: nat)
    requires Asks(request, ls, qtype, e)
    ensures M.HostName(Join(ls)) && qtype < 65536 && HEADER <= |request|
  {
  }

  lemma SoundParts(h: M.Hashes, s: M.State)
    requires M.Sound(h, s)
    ensures M.Asking(s) && M.AnswersOk(s.answers, h.answer)
  {
  }

  lemma AnswerStep(h: M.Hashes, s: M.State, d: Name, qtype: nat, request: Packet, upstream: Packet, env: M.Env)
    requires M.Sound(h, s) && M.HostName(d)
    ensures M.Sized(s)
    ensures var t := M.Answer(h, s, d, qtype, request, upstream, env).0;
      M.Sound(h, t) && forall lossless :: M.Inv(h, s, lossless) ==> M.Inv(h, t, lossless)
  {
    hide M.Answer, M.Inv;
    M.AnswerSound(h, s, d, qtype, request, upstream, env);
    forall lossless | M.Inv(h, s, lossless) ensures M.Inv(h, M.Answer(h, s, d, qtype, request, upstream, env).0, lossless) {
      M.AnswerKeeps(h, s, d, qtype, request, upstream, env, lossless);
    }
  }

  lemma FinishStep(h: M.Hashes, s: M.State, d: Name, result: M.Gravity, when: nat, fault: Fault)
    requires M.Sound(h, s) && d in s.running
    ensures M.Sized(s)
    ensures var t := M.Finish(h, s, d, result, when, fault);
      M.Sound(h, t) && forall lossless :: M.Inv(h, s, lossless) && (lossless ==> !fault.EntryFault?) ==> M.Inv(h, t, lossless)
  {
    hide M.Finish, M.Inv;
    M.FinishSound(h, s, d, result, when, fault);
    forall lossless | M.Inv(h, s, lossless) && (lossless ==> !fault.EntryFault?)
      ensures M.Inv(h, M.Finish(h, s, d, result, when, fault), lossless)
    {
      M.FinishKeeps(h, s, d, result, when, fault, lossless);
    }
  }

  lemma ReloadStep(h: M.Hashes, s: M.State, t: Table)
    requires M.Sound(h, s)
    ensures M.Sound(h, M.Reload(s, t))
    ensures forall lossless :: M.Inv(h, s, lossless) && M.Enabled(s, M.Reloaded(t), lossless) ==> M.Inv(h, M.Reload(s, t), lossless)
  {
    hide M.Reload, M.Inv, M.Enabled;
    M.ReloadSound(h, s, t);
    forall lossless | M.Inv(h, s, lossless) && M.Enabled(s, M.Reloaded(t), lossless) ensures M.Inv(h, M.Reload(s, t), lossless) {
      M.ReloadKeeps(h, s, t, lossless);
    }
  }

  // The reply has its cause in the old state, and the tree and the asked cache know
  // what has been asked.
  ghost predicate Answered(s: M.State, s': M.State, d: Name, qtype: nat, request: Packet, upstream: Packet, env: M.Env, reply: M.Reply) {
    && L.ReplyFor(s.table, s.answers, d, qtype, request, upstream, env.probed, reply)
    && L.QueryTable(s.table, s.verdicts, s'.table, d, env) && L.QueryAsks(s, s', d, env)
  }

  lemma AnsweredStep(h: M.Hashes, s: M.State, d: Name, qtype: nat, request: Packet, upstream: Packet, env: M.Env, s': M.State, reply: M.Reply)
    requires M.Sized(s) && (s', reply) == M.Answer(h, s, d, qtype, request, upstream, env)
    ensures M.Inv(h, s, true) || M.Inv(h, s, false) ==> Answered(s, s', d, qtype, request, upstream, env, reply)
  {
    hide M.Inv, M.Answer, L.ReplyFor, L.QueryTable, L.QueryAsks;
    forall lossless | M.Inv(h, s, lossless) ensures Answered(s, s', d, qtype, request, upstream, env, reply) {
      L.ReplyMeans(h, s, d, qtype, request, upstream, env, lossless);
      L.QueryEffects(h, s, d, qtype, request, upstream, env, lossless);
    }
  }

  // The bytes that go out for a reply.
  ghost predicate OnTheWire(bytes: Packet, request: Packet, qtype: nat, reply: M.Reply) {
    match reply
    case Silent => bytes == []
    case Relayed(packet) => bytes == packet
    case Sinkhole(ttl) => WireLaws.IsSinkhole(bytes, request, ttl)
    case Cached(p, ttl) => WireLaws.IsAnswers(bytes, request, qtype, p, ttl)
  }

  lemma SentBytes(bytes: Packet, request: Packet, qtype: nat, reply: M.Reply)
    requires Sent(bytes, request, qtype, reply)
    ensures OnTheWire(bytes, request, qtype, reply)
  {
    hide WireLaws.IsSinkhole, WireLaws.IsAnswers;
    match reply
    case Sinkhole(ttl) => WireLaws.SinkholeBytes(request, ttl);
    case Cached(p, ttl) => WireLaws.ResponseBytes(request, qtype, p, ttl);
    case _ =>
  }

  lemma NothingSent(bytes: Packet, request: Packet, qtype: nat)
    requires bytes == []
    ensures OnTheWire(bytes, request, qtype, M.Silent)
  {
  }

  // Only the insert of the REVIEW entry depends on its allocations.
  lemma SameButFault(h: M.Hashes, s: M.State, d: Name, env: M.Env, fault: Fault)
    requires M.Sized(s)
    ensures M.CheckDomain(h, s, d, env.(review := fault)) == M.CheckDomain(h, s, d, env)
  {
  }

  lemma ServeSameButFault(h: M.Hashes, s: M.State, k: A.Key, eligible: bool, request: Packet, upstream: Packet, env: M.Env, fault: Fault)
    requires M.Sized(s)
    ensures M.Serve(h, s, k, eligible, request, upstream, env.(review := fault)) == M.Serve(h, s, k, eligible, request, upstream, env)
  {
  }

  lemma HitIsOk(a: A.ASlots, hash: A.Key -> nat, k: A.Key, hit: (A.Payload, nat))
    requires M.AnswersOk(a, hash) && P.Stores(a, k, hit.0, hit.1)
    ensures W.PayloadOk(hit.0) && hit.1 <= W.U32_MAX
  {
  }

  // The datagram a reply stands for.
  ghost predicate Sent(bytes: Packet, request: Packet, qtype: nat, reply: M.Reply) {
    match reply
    case Silent => bytes == []
    case Relayed(packet) => bytes == packet
    case Sinkhole(ttl) => HEADER <= |request| && ttl <= W.U32_MAX && bytes == W.CachedResponse(request, 1, W.SINKHOLE, ttl)
    case Cached(p, ttl) => HEADER <= |request| && qtype < 65536 && W.PayloadOk(p) && ttl <= W.U32_MAX && bytes == W.CachedResponse(request, qtype, p, ttl)
  }
}
