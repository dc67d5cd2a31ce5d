// The ask-once protocol with its interleavings: any number of worker threads
// claim names and queue checks, any number of check threads run and end, and the
// asked cache and the semaphore are shared.  One step is one access to either,
// as their lock and the semaphore make it.
module Gravity {
  import opened Prelude
  import opened AskOnce

  datatype Result = Unreachable | Clean | Listed

  // Where a claim has got to.  Claimed: before the wait on the semaphore.
  // Skipped: the semaphore was at zero.  Holding: with a permit, before the
  // thread is made.  Aborting: it could not be made.  Checking: the thread asks
  // the Pi.  Answered: it has a result.  Finishing: marked, before the release.
  datatype Phase = Claimed | Skipped | Holding | Aborting | Checking | Answered(result: Result) | Finishing

  datatype Agent = Agent(name: Name, phase: Phase)

  // `orphans` remembers the names whose thread could not be made.
  datatype State = State(asked: Asked, permits: nat, agents: map<nat, Agent>, orphans: set<Name>)

  datatype Step =
    | Claim(id: nat, name: Name, gotMemory: bool)
    | Wait(id: nat)
    | GiveBack(id: nat)
    | Spawn(id: nat, made: bool)
    | Abort(id: nat)
    | Reply(id: nat, result: Result)
    | Mark(id: nat)
    | Release(id: nat)

  predicate Enabled(s: State, step: Step) {
    match step
    case Claim(id, name, gotMemory) => id !in s.agents
    case Wait(id) => id in s.agents && s.agents[id].phase == Claimed
    case GiveBack(id) => id in s.agents && s.agents[id].phase == Skipped
    case Spawn(id, made) => id in s.agents && s.agents[id].phase == Holding
    case Abort(id) => id in s.agents && s.agents[id].phase == Aborting
    case Reply(id, result) => id in s.agents && s.agents[id].phase == Checking
    case Mark(id) => id in s.agents && s.agents[id].phase.Answered?
    case Release(id) => id in s.agents && s.agents[id].phase == Finishing
  }

  function Move(s: State, id: nat, phase: Phase): State
    requires id in s.agents
  {
    s.(agents := s.agents[id := s.agents[id].(phase := phase)])
  }

  function Leave(s: State, id: nat): State {
    s.(agents := s.agents - {id})
  }

  function Apply(s: State, step: Step): State
    requires Enabled(s, step)
  {
    match step
    case Claim(id, name, gotMemory) =>
      var (asked, fire) := TryClaim(s.asked, name, gotMemory);
      if fire then s.(asked := asked, agents := s.agents[id := Agent(name, Claimed)]) else s
    case Wait(id) =>
      if s.permits > 0 then Move(s.(permits := s.permits - 1), id, Holding) else Move(s, id, Skipped)
    case GiveBack(id) =>
      Leave(s.(asked := MarkDone(s.asked, s.agents[id].name, false)), id)
    case Spawn(id, made) =>
      if made then Move(s, id, Checking)
      else Move(s.(orphans := s.orphans + {s.agents[id].name}), id, Aborting)
    case Abort(id) =>
      Leave(s.(permits := s.permits + 1), id)
    case Reply(id, result) =>
      Move(s, id, Answered(result))
    case Mark(id) =>
      var a := s.agents[id];
      Move(s.(asked := MarkDone(s.asked, a.name, a.phase.result != Unreachable)), id, Finishing)
    case Release(id) =>
      Leave(s.(permits := s.permits + 1), id)
  }

  // ------------------------------------------------------------------
  // The invariant
  // ------------------------------------------------------------------

  predicate HoldsPermit(p: Phase) {
    p.Holding? || p.Aborting? || p.Checking? || p.Answered? || p.Finishing?
  }

  // The claim is still this agent's to settle.
  predicate OwnsClaim(p: Phase) {
    p.Claimed? || p.Skipped? || p.Holding? || p.Checking? || p.Answered?
  }

  function Holders(agents: map<nat, Agent>): set<nat> {
    set i | i in agents && HoldsPermit(agents[i].phase)
  }

  predicate Owner(s: State, i: nat) {
    i in s.agents && OwnsClaim(s.agents[i].phase)
  }

  ghost predicate Owned(s: State, d: Name) {
    exists i :: Owner(s, i) && s.agents[i].name == d
  }

  // Every owner's name is pending and its own, and a pending name without an
  // owner is one whose thread could not be made.
  ghost predicate ClaimsOk(s: State) {
    && (forall i :: Owner(s, i) ==> s.agents[i].name in s.asked && s.asked[s.agents[i].name] == Pending)
    && (forall i, j :: Owner(s, i) && Owner(s, j) && s.agents[i].name == s.agents[j].name ==> i == j)
    && (forall i :: Owner(s, i) ==> s.agents[i].name !in s.orphans)
    && (forall d {:trigger Owned(s, d)} :: d in s.asked && s.asked[d] == Pending ==> Owned(s, d) || d in s.orphans)
    && (forall d :: d in s.orphans ==> d in s.asked && s.asked[d] == Pending)
  }

  ghost predicate Inv(s: State) {
    s.permits + |Holders(s.agents)| == MAX_CHECKS && ClaimsOk(s)
  }

  function Count(b: bool): nat {
    if b then 1 else 0
  }

  predicate HolderAt(agents: map<nat, Agent>, i: nat) {
    i in agents && HoldsPermit(agents[i].phase)
  }

  lemma HoldersUpdate(agents: map<nat, Agent>, i: nat, a: Agent)
    ensures |Holders(agents[i := a])| == |Holders(agents)| - Count(HolderAt(agents, i)) + Count(HoldsPermit(a.phase))
  {
    assert Holders(agents[i := a]) == if HoldsPermit(a.phase) then Holders(agents) + {i} else Holders(agents) - {i};
  }

  lemma HoldersRemove(agents: map<nat, Agent>, i: nat)
    ensures |Holders(agents - {i})| == |Holders(agents)| - Count(HolderAt(agents, i))
  {
    assert Holders(agents - {i}) == Holders(agents) - {i};
  }

  lemma PermitsKept(s: State, step: Step)
    requires Inv(s) && Enabled(s, step)
    ensures Apply(s, step).permits + |Holders(Apply(s, step).agents)| == MAX_CHECKS
  {
    hide ClaimsOk, Holders;
    var id := step.id;
    var s' := Apply(s, step);
    if step.GiveBack? || step.Abort? || step.Release? {
      HoldersRemove(s.agents, id);
    } else if s'.agents != s.agents {
      HoldersUpdate(s.agents, id, s'.agents[id]);
    }
  }

  // An agent moves on and still owns its claim.
  lemma MoveKeeps(s: State, s': State, id: nat)
    requires ClaimsOk(s) && Owner(s, id) && id in s'.agents
    requires s'.asked == s.asked && s'.orphans == s.orphans
    requires s'.agents == s.agents[id := s'.agents[id]] && Owner(s', id) && s'.agents[id].name == s.agents[id].name
    ensures ClaimsOk(s')
  {
    assert forall i :: Owner(s', i) <==> Owner(s, i);
    forall d | Owned(s, d) ensures Owned(s', d) {
      var i :| Owner(s, i) && s.agents[i].name == d;
      assert Owner(s', i);
    }
  }

  lemma ClaimKeeps(s: State, id: nat, name: Name)
    requires ClaimsOk(s) && id !in s.agents && name !in s.asked
    ensures ClaimsOk(s.(asked := s.asked[name := Pending], agents := s.agents[id := Agent(name, Claimed)]))
  {
    var s' := s.(asked := s.asked[name := Pending], agents := s.agents[id := Agent(name, Claimed)]);
    assert forall i :: Owner(s', i) <==> Owner(s, i) || i == id;
    forall d | Owned(s, d) || d == name ensures Owned(s', d) {
      if d == name {
        assert Owner(s', id);
      } else {
        var i :| Owner(s, i) && s.agents[i].name == d;
        assert Owner(s', i);
      }
    }
  }

  // An owner settles its claim, one way or the other.
  lemma SettleKeeps(s: State, s': State, id: nat, succeeded: bool)
    requires ClaimsOk(s) && Owner(s, id)
    requires s'.asked == MarkDone(s.asked, s.agents[id].name, succeeded) && s'.orphans == s.orphans
    requires s'.agents - {id} == s.agents - {id} && !Owner(s', id)
    ensures ClaimsOk(s')
  {
    forall i: nat | i != id
      ensures Owner(s', i) <==> Owner(s, i)
      ensures i in s.agents && i in s'.agents ==> s'.agents[i] == s.agents[i]
    {
      assert i in s.agents <==> i in s.agents - {id};
      assert i in s'.agents <==> i in s'.agents - {id};
      if i in s.agents && i in s'.agents { assert (s.agents - {id})[i] == (s'.agents - {id})[i]; }
    }
    forall d | Owned(s, d) && d != s.agents[id].name ensures Owned(s', d) {
      var i :| Owner(s, i) && s.agents[i].name == d;
      assert Owner(s', i);
    }
  }

  // The thread could not be made: the name stays pending and nobody's.
  lemma OrphanKeeps(s: State, id: nat)
    requires ClaimsOk(s) && Owner(s, id)
    ensures ClaimsOk(Move(s.(orphans := s.orphans + {s.agents[id].name}), id, Aborting))
  {
    var s' := Move(s.(orphans := s.orphans + {s.agents[id].name}), id, Aborting);
    assert forall i :: Owner(s', i) <==> Owner(s, i) && i != id;
    forall d | Owned(s, d) && d != s.agents[id].name ensures Owned(s', d) {
      var i :| Owner(s, i) && s.agents[i].name == d;
      assert Owner(s', i);
    }
  }

  // An agent that owns nothing leaves.
  lemma GoneKeeps(s: State, s': State, id: nat)
    requires ClaimsOk(s) && !Owner(s, id)
    requires s'.asked == s.asked && s'.orphans == s.orphans && s'.agents == s.agents - {id}
    ensures ClaimsOk(s')
  {
    assert forall i :: Owner(s', i) <==> Owner(s, i);
    forall d | Owned(s, d) ensures Owned(s', d) {
      var i :| Owner(s, i) && s.agents[i].name == d;
      assert Owner(s', i);
    }
  }

  lemma StepKeeps(s: State, step: Step)
    requires Inv(s) && Enabled(s, step)
    ensures Inv(Apply(s, step))
  {
    hide ClaimsOk, Holders;
    PermitsKept(s, step);
    var s' := Apply(s, step);
    match step
    case Claim(id, name, gotMemory) =>
      if name !in s.asked && gotMemory { ClaimKeeps(s, id, name); }
    case Wait(id) => MoveKeeps(s, s', id);
    case GiveBack(id) => SettleKeeps(s, s', id, false);
    case Spawn(id, made) => if made { MoveKeeps(s, s', id); } else { OrphanKeeps(s, id); }
    case Abort(id) => GoneKeeps(s, s', id);
    case Reply(id, result) => MoveKeeps(s, s', id);
    case Mark(id) => SettleKeeps(s, s', id, s.agents[id].phase.result != Unreachable);
    case Release(id) => GoneKeeps(s, s', id);
  }

  // ------------------------------------------------------------------
  // What it gives, in every reachable state and over every run
  // ------------------------------------------------------------------

  function Start(): State {
    State(map[], MAX_CHECKS, map[], {})
  }

  function Checks(s: State): set<nat> {
    set i | i in s.agents && s.agents[i].phase == Checking
  }

  lemma SubsetSize<T>(a: set<T>, b: set<T>)
    requires a <= b
    ensures |a| <= |b|
  {
    assert b == a + (b - a);
  }

  // Permits are conserved; at most eight checks run, each for a pending name, no
  // two for the same one; and every pending name is being settled by exactly one
  // agent unless its thread could not be made.
  lemma Safety(s: State)
    requires Inv(s)
    ensures s.permits + |Holders(s.agents)| == MAX_CHECKS
    ensures |Checks(s)| <= MAX_CHECKS
    ensures forall i :: i in Checks(s) ==> s.agents[i].name in s.asked && s.asked[s.agents[i].name] == Pending
    ensures forall i, j :: i in Checks(s) && j in Checks(s) && s.agents[i].name == s.agents[j].name ==> i == j
    ensures forall d :: d in s.asked && s.asked[d] == Pending && d !in s.orphans ==>
      exists i :: Owner(s, i) && s.agents[i].name == d && forall j :: Owner(s, j) && s.agents[j].name == d ==> j == i
  {
    SubsetSize(Checks(s), Holders(s.agents));
    assert forall i :: i in Checks(s) ==> Owner(s, i);
    forall d | d in s.asked && s.asked[d] == Pending && d !in s.orphans
      ensures exists i :: Owner(s, i) && s.agents[i].name == d && forall j :: Owner(s, j) && s.agents[j].name == d ==> j == i
    {
      assert Owned(s, d);
      var i :| Owner(s, i) && s.agents[i].name == d;
      assert forall j :: Owner(s, j) && s.agents[j].name == d ==> j == i;
    }
  }

  function Run(s: State, steps: seq<Step>): State
    requires Feasible(s, steps)
    decreases |steps|
  {
    if steps == [] then s else Run(Apply(s, steps[0]), steps[1..])
  }

  predicate Feasible(s: State, steps: seq<Step>)
    decreases |steps|
  {
    steps == [] || (Enabled(s, steps[0]) && Feasible(Apply(s, steps[0]), steps[1..]))
  }

  lemma StartInv()
    ensures Inv(Start())
  {
    assert Holders(map[]) == {};
  }

  lemma {:induction false} RunKeeps(s: State, steps: seq<Step>)
    requires Inv(s) && Feasible(s, steps)
    ensures Inv(Run(s, steps))
    decreases |steps|
  {
    if steps != [] {
      StepKeeps(s, steps[0]);
      RunKeeps(Apply(s, steps[0]), steps[1..]);
    }
  }

  // An answered name stays answered, and no step claims it again.
  lemma DoneStays(s: State, step: Step, d: Name)
    requires Inv(s) && Enabled(s, step) && d in s.asked && s.asked[d] == Done
    ensures var s' := Apply(s, step); d in s'.asked && s'.asked[d] == Done
    ensures step.Claim? && step.name == d ==> Apply(s, step) == s
  {
    if step.GiveBack? || step.Mark? { assert Owner(s, step.id); }
  }

  // A full semaphore and an unreachable Pi make the name claimable again.
  lemma FailureFrees(s: State, step: Step)
    requires Inv(s) && Enabled(s, step)
    requires step.GiveBack? || (step.Mark? && s.agents[step.id].phase.result == Unreachable)
    ensures var d := s.agents[step.id].name; d !in Apply(s, step).asked && TryClaim(Apply(s, step).asked, d, true).1
  {
    assert Owner(s, step.id);
  }

  // Either answer of the Pi makes the name DONE.
  lemma AnswerSettles(s: State, step: Step)
    requires Inv(s) && Enabled(s, step) && step.Mark? && s.agents[step.id].phase.result != Unreachable
    ensures Apply(s, step).asked == s.asked[s.agents[step.id].name := Done]
  {
    assert Owner(s, step.id);
  }

  // A check is skipped exactly if eight permits are held.
  lemma SkippedIff(s: State, step: Step)
    requires Inv(s) && Enabled(s, step) && step.Wait?
    ensures Apply(s, step).agents[step.id].phase == if |Holders(s.agents)| == 8 then Skipped else Holding
  {
  }

  lemma Before(s: State, step: Step, rest: seq<Step>, t: State)
    requires Enabled(s, step) && Feasible(Apply(s, step), rest) && Run(Apply(s, step), rest) == t
    ensures Feasible(s, [step] + rest) && Run(s, [step] + rest) == t
  {
    assert ([step] + rest)[1..] == rest;
  }

  // One name from its first sight to its end: afterwards it is known as the Pi's
  // result has it, and the permit is back.
  lemma OneCheck(d: Name, result: Result)
    ensures var steps := [Claim(0, d, true)] + ([Wait(0)] + ([Spawn(0, true)] + ([Reply(0, result)] + ([Mark(0)] + ([Release(0)] + [])))));
      && Feasible(Start(), steps)
      && Run(Start(), steps) == State(if result == Unreachable then map[] else map[d := Done], 8, map[], {})
  {
    var t := State(if result == Unreachable then map[] else map[d := Done], 8, map[], {});
    var s1 := Apply(Start(), Claim(0, d, true));
    var s2 := Apply(s1, Wait(0));
    var s3 := Apply(s2, Spawn(0, true));
    var s4 := Apply(s3, Reply(0, result));
    var s5 := Apply(s4, Mark(0));
    assert s5.asked == t.asked;
    assert Apply(s5, Release(0)).agents == map[];
    assert Apply(s5, Release(0)) == t;
    hide Apply, Enabled, Feasible, Run;
    NoSteps(t);
    OneCheckRun(s1, s2, s3, s4, s5, t, d, result);
  }

  lemma NoSteps(t: State)
    ensures Feasible(t, []) && Run(t, []) == t
  {
  }

  lemma OneCheckRun(s1: State, s2: State, s3: State, s4: State, s5: State, t: State, d: Name, result: Result)
    requires Enabled(Start(), Claim(0, d, true)) && s1 == Apply(Start(), Claim(0, d, true))
    requires Enabled(s1, Wait(0)) && s2 == Apply(s1, Wait(0))
    requires Enabled(s2, Spawn(0, true)) && s3 == Apply(s2, Spawn(0, true))
    requires Enabled(s3, Reply(0, result)) && s4 == Apply(s3, Reply(0, result))
    requires Enabled(s4, Mark(0)) && s5 == Apply(s4, Mark(0))
    requires Enabled(s5, Release(0)) && t == Apply(s5, Release(0))
    ensures var steps := [Claim(0, d, true)] + ([Wait(0)] + ([Spawn(0, true)] + ([Reply(0, result)] + ([Mark(0)] + ([Release(0)] + [])))));
      Feasible(Start(), steps) && Run(Start(), steps) == t
  {
    hide Apply, Enabled;
    NoSteps(t);
    Before(s5, Release(0), [], t);
    Before(s4, Mark(0), [Release(0)] + [], t);
    Before(s3, Reply(0, result), [Mark(0)] + ([Release(0)] + []), t);
    Before(s2, Spawn(0, true), [Reply(0, result)] + ([Mark(0)] + ([Release(0)] + [])), t);
    Before(s1, Wait(0), [Spawn(0, true)] + ([Reply(0, result)] + ([Mark(0)] + ([Release(0)] + []))), t);
    Before(Start(), Claim(0, d, true), [Wait(0)] + ([Spawn(0, true)] + ([Reply(0, result)] + ([Mark(0)] + ([Release(0)] + [])))), t);
  }

  // How often a run settles d with an answer.
  function Answers(s: State, steps: seq<Step>, d: Name): nat
    requires Feasible(s, steps)
    decreases |steps|
  {
    if steps == [] then 0
    else
      var step := steps[0];
      (if step.Mark? && s.agents[step.id].name == d && s.agents[step.id].phase.result != Unreachable then 1 else 0)
        + Answers(Apply(s, step), steps[1..], d)
  }

  // No name is ever answered twice.
  lemma {:induction false} AskedOnce(s: State, steps: seq<Step>, d: Name)
    requires Inv(s) && Feasible(s, steps)
    ensures Answers(s, steps, d) <= if d in s.asked && s.asked[d] == Done then 0 else 1
    decreases |steps|
  {
    if steps != [] {
      var step := steps[0];
      StepKeeps(s, step);
      if d in s.asked && s.asked[d] == Done { DoneStays(s, step, d); }
      if step.Mark? { assert Owner(s, step.id); }
      AskedOnce(Apply(s, step), steps[1..], d);
    }
  }

  // The run has a thread for d that could not be made.
  predicate ThreadFailed(s: State, steps: seq<Step>, d: Name)
    requires Feasible(s, steps)
    decreases |steps|
  {
    steps != [] &&
    ((steps[0].Spawn? && !steps[0].made && s.agents[steps[0].id].name == d) || ThreadFailed(Apply(s, steps[0]), steps[1..], d))
  }

  ghost predicate NoneFailed(s: State, steps: seq<Step>)
    requires Feasible(s, steps)
  {
    forall d :: !ThreadFailed(s, steps, d)
  }

  predicate ThreadsMade(steps: seq<Step>) {
    forall k :: 0 <= k < |steps| && steps[k].Spawn? ==> steps[k].made
  }

  lemma {:induction false} OrphansAre(s: State, steps: seq<Step>, d: Name)
    requires Feasible(s, steps)
    ensures d in Run(s, steps).orphans <==> d in s.orphans || ThreadFailed(s, steps, d)
    decreases |steps|
  {
    if steps != [] {
      OrphansAre(Apply(s, steps[0]), steps[1..], d);
    }
  }

  lemma ThreadsCons(steps: seq<Step>)
    requires steps != []
    ensures ThreadsMade(steps) <==> (steps[0].Spawn? ==> steps[0].made) && ThreadsMade(steps[1..])
  {
    var rest := steps[1..];
    if ThreadsMade(steps) {
      forall k | 0 <= k < |rest| && rest[k].Spawn? ensures rest[k].made { assert steps[k + 1] == rest[k]; }
    } else if ThreadsMade(rest) {
      var k :| 0 <= k < |steps| && steps[k].Spawn? && !steps[k].made;
      assert k > 0 ==> rest[k - 1] == steps[k];
    }
  }

  lemma {:induction false} SomeThreadFailed(s: State, steps: seq<Step>)
    requires Feasible(s, steps)
    ensures ThreadsMade(steps) <==> NoneFailed(s, steps)
    decreases |steps|
  {
    if steps != [] {
      var step, rest := steps[0], steps[1..];
      var t := Apply(s, step);
      SomeThreadFailed(t, rest);
      ThreadsCons(steps);
      if step.Spawn? && !step.made {
        assert ThreadFailed(s, steps, s.agents[step.id].name);
      } else if ThreadsMade(rest) {
        forall d ensures !ThreadFailed(s, steps, d) {
          assert !ThreadFailed(t, rest, d);
        }
      } else {
        var d :| ThreadFailed(t, rest, d);
        assert ThreadFailed(s, steps, d);
      }
    }
  }

  // Pending, with nobody to settle it.
  ghost predicate Stuck(s: State, d: Name) {
    d in s.asked && s.asked[d] == Pending && !Owned(s, d)
  }

  lemma StuckIsOrphan(s: State, d: Name)
    requires Inv(s)
    ensures Stuck(s, d) <==> d in s.orphans
  {
    assert forall i :: Owner(s, i) ==> s.agents[i].name !in s.orphans;
  }

  // Over every run from the start, the stuck names are exactly those for which a
  // thread could not be made.
  lemma StuckIff(s: State, steps: seq<Step>, d: Name)
    requires s == Start() && Feasible(s, steps)
    ensures Stuck(Run(s, steps), d) <==> ThreadFailed(s, steps, d)
  {
    StartInv();
    RunKeeps(s, steps);
    StuckIsOrphan(Run(s, steps), d);
    OrphansAre(s, steps, d);
  }

  // So every pending name is being settled exactly if every thread could be made.
  lemma PendingIsInProgress(s: State, steps: seq<Step>)
    requires s == Start() && Feasible(s, steps)
    ensures var t := Run(s, steps);
      (forall d :: d in t.asked && t.asked[d] == Pending ==> Owned(t, d)) <==> ThreadsMade(steps)
  {
    hide Run, Feasible, ThreadFailed, Owned;
    var t := Run(s, steps);
    SomeThreadFailed(s, steps);
    if ThreadsMade(steps) {
      forall d | d in t.asked && t.asked[d] == Pending ensures Owned(t, d) {
        StuckIff(s, steps, d);
        assert !ThreadFailed(s, steps, d);
      }
    } else {
      var d :| ThreadFailed(s, steps, d);
      StuckIff(s, steps, d);
    }
  }

  // A stuck name is stuck for good: whatever happens, nobody claims it, and
  // nobody settles it.
  lemma StuckForGood(s: State, steps: seq<Step>, d: Name)
    requires Inv(s) && Feasible(s, steps) && Stuck(s, d)
    ensures Stuck(Run(s, steps), d)
    ensures forall gotMemory :: TryClaim(Run(s, steps).asked, d, gotMemory) == (Run(s, steps).asked, false)
  {
    RunKeeps(s, steps);
    StuckIsOrphan(s, d);
    OrphansAre(s, steps, d);
    StuckIsOrphan(Run(s, steps), d);
  }

  // A run that gets there: the one thread asked for cannot be made, the permit
  // goes back, and the name stays.
  lemma ThreadlessIsStuck(d: Name)
    ensures var steps := [Claim(0, d, true), Wait(0), Spawn(0, false), Abort(0)];
      && Feasible(Start(), steps)
      && Run(Start(), steps) == State(map[d := Pending], MAX_CHECKS, map[], {d})
      && Stuck(Run(Start(), steps), d)
  {
    var claim, wait, spawn, abort := Claim(0, d, true), Wait(0), Spawn(0, false), Abort(0);
    var s1 := Apply(Start(), claim);
    var s2 := Apply(s1, wait);
    var s3 := Apply(s2, spawn);
    var s4 := Apply(s3, abort);
    assert [claim, wait, spawn, abort][1..] == [wait, spawn, abort];
    assert [wait, spawn, abort][1..] == [spawn, abort];
    assert [spawn, abort][1..] == [abort] && [abort][1..] == [];
    assert Feasible(s3, [abort]) && Run(s3, [abort]) == s4;
    assert Feasible(s2, [spawn, abort]) && Run(s2, [spawn, abort]) == s4;
    assert Feasible(s1, [wait, spawn, abort]) && Run(s1, [wait, spawn, abort]) == s4;
    assert s4.agents == map[] && s4.orphans == {d};
  }
}
