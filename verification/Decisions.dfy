// Which changes of the table change a decision: the verdict of a name as far as
// a BLOCKED or ALLOWED answer depends on it.
module Decisions {
  import opened Prelude
  import opened Forest
  import opened Verdict
  import W = AnswerWire

  // ------------------------------------------------------------------
  // Verdicts
  // ------------------------------------------------------------------

  // A TTL of 0 on an entry means "no override".
  function Effective(ttl: nat): nat {
    if ttl == 0 then W.DEFAULT_BLOCK_TTL else ttl
  }

  // The part of a check that decides what happens to a query.
  datatype Check = NoMatch | Match(status: Status, ttl: nat)

  // What a fresh walk of the tree says.
  function At(t: Table, p: Path): Check {
    if Matched(t, p) then Match(Deciding(t, p).status, Deciding(t, p).ttl) else NoMatch
  }

  predicate Same(a: Check, b: Check) {
    && a.Match? == b.Match?
    && (a.Match? ==> a.status == b.status && (a.status == Blocked ==> Effective(a.ttl) == Effective(b.ttl)))
  }

  predicate Decided(c: Check) {
    c.Match? && c.status != Review
  }

  // From t to u, a name that was BLOCKED or ALLOWED is still exactly that.
  ghost predicate DecisionKept(t: Table, u: Table, p: Path) {
    Decided(At(t, p)) ==> Same(At(t, p), At(u, p))
  }

  ghost predicate KeepsDecided(t: Table, u: Table) {
    forall p {:trigger DecisionKept(t, u, p)} :: DecisionKept(t, u, p)
  }

  ghost predicate KeepsMatched(t: Table, u: Table) {
    forall p {:trigger Matched(u, p)} :: Matched(t, p) ==> Matched(u, p)
  }

  lemma {:induction false} DeepestIs(t: Table, p: Path, k: nat, s: Status, d: nat)
    requires d <= k <= |p| && (d > 0 ==> EntryAt(t, p, d, s))
    requires forall j :: d < j <= k ==> !EntryAt(t, p, j, s)
    ensures Deepest(t, p, k, s) == d
  {
    if d < k { DeepestIs(t, p, k - 1, s, d); }
  }

  // The closed form of a verdict, status by status.
  lemma AtIs(t: Table, p: Path)
    ensures At(t, p).Match? <==> exists j :: 0 < j <= |p| && p[..j] in t
    ensures At(t, p).Match? && At(t, p).status == Allowed <==> exists j :: 0 < j <= |p| && EntryAt(t, p, j, Allowed)
    ensures At(t, p).Match? && At(t, p).status == Blocked <==>
      (exists j :: 0 < j <= |p| && EntryAt(t, p, j, Blocked)) && forall j :: 0 < j <= |p| ==> !EntryAt(t, p, j, Allowed)
    ensures At(t, p).Match? && At(t, p).status == Blocked ==>
      var b := Deepest(t, p, |p|, Blocked); b > 0 && At(t, p).ttl == t[p[..b]].ttl
  {
    WinnerStatus(t, p, |p|);
  }

  // A touch changes no verdict.
  lemma TouchKeeps(t: Table, p: Path, seen: nat)
    ensures KeepsDecided(t, Touch(t, p, seen)) && KeepsMatched(t, Touch(t, p, seen))
    ensures SameStatuses(t, Touch(t, p, seen)) && forall q :: q in t ==> Touch(t, p, seen)[q].ttl == t[q].ttl
  {
    forall q ensures DecisionKept(t, Touch(t, p, seen), q) && (Matched(t, q) ==> Matched(Touch(t, p, seen), q)) {
      LookupKeepsVerdicts(t, p, seen, q);
    }
  }

  lemma ReviewChangeAt(t: Table, u: Table, p: Path, q: Path)
    requires p != [] && t - {p} == u - {p}
    requires p in t ==> t[p].status == Review
    requires p in u ==> u[p].status == Review
    ensures DecisionKept(t, u, q) && (p in u && Matched(t, q) ==> Matched(u, q))
  {
    forall j: nat | 0 < j <= |q| && q[..j] != p
      ensures q[..j] in t <==> q[..j] in u
      ensures q[..j] in t ==> t[q[..j]] == u[q[..j]]
    {
      assert q[..j] in t <==> q[..j] in t - {p};
      assert q[..j] in u <==> q[..j] in u - {p};
      if q[..j] in t { assert (t - {p})[q[..j]] == (u - {p})[q[..j]]; }
    }
    AtIs(t, q);
    AtIs(u, q);
    assert forall j: nat, s: Status :: 0 < j <= |q| && s != Review ==> (EntryAt(t, q, j, s) <==> EntryAt(u, q, j, s));
    DeepestIs(u, q, |q|, Blocked, Deepest(t, q, |q|, Blocked));
  }

  // REVIEW entries come and go without touching any decision.
  lemma ReviewChange(t: Table, u: Table, p: Path)
    requires p != [] && t - {p} == u - {p}
    requires p in t ==> t[p].status == Review
    requires p in u ==> u[p].status == Review
    ensures KeepsDecided(t, u)
    ensures p in u ==> KeepsMatched(t, u)
  {
    forall q ensures DecisionKept(t, u, q) && (p in u && Matched(t, q) ==> Matched(u, q)) {
      ReviewChangeAt(t, u, p, q);
    }
  }

  // Blocking p with no TTL override keeps every decision exactly when p itself
  // was undecided, was blocked for the default TTL, or is allowed from above.
  ghost predicate Harmless(t: Table, p: Path) {
    match At(t, p)
    case NoMatch => true
    case Match(Review, _) => true
    case Match(Blocked, ttl) => Effective(ttl) == W.DEFAULT_BLOCK_TTL
    case Match(Allowed, _) => exists k :: 0 < k < |p| && EntryAt(t, p, k, Allowed)
  }

  lemma BlockingChanges(t: Table, p: Path, e: Entry, q: Path, j: nat, s: Status)
    requires p != [] && e.status == Blocked && 0 < j <= |q|
    ensures var u := t[p := e];
      if p <= q && j == |p| then EntryAt(u, q, j, s) <==> s == Blocked
      else (EntryAt(u, q, j, s) <==> EntryAt(t, q, j, s)) && (q[..j] in t ==> u[q[..j]] == t[q[..j]])
  {
    assert q[..j] == p <==> p <= q && j == |p|;
  }

  lemma BlockingIsHarmless(t: Table, p: Path, e: Entry, q: Path)
    requires p != [] && e.status == Blocked && e.ttl == 0 && Harmless(t, p)
    ensures DecisionKept(t, t[p := e], q)
  {
    var u := t[p := e];
    forall j: nat, s: Status | 0 < j <= |q|
      ensures if p <= q && j == |p| then EntryAt(u, q, j, s) <==> s == Blocked
              else (EntryAt(u, q, j, s) <==> EntryAt(t, q, j, s)) && (q[..j] in t ==> u[q[..j]] == t[q[..j]])
    {
      BlockingChanges(t, p, e, q, j, s);
    }
    AtIs(t, q);
    AtIs(u, q);
    if Decided(At(t, q)) {
      if At(t, q).status == Allowed {
        AllowedStays(t, p, e, q);
      } else {
        BlockedStays(t, p, e, q);
      }
    }
  }

  lemma AllowedStays(t: Table, p: Path, e: Entry, q: Path)
    requires p != [] && e.status == Blocked && Harmless(t, p)
    requires At(t, q).Match? && At(t, q).status == Allowed
    ensures At(t[p := e], q).Match? && At(t[p := e], q).status == Allowed
  {
    var u := t[p := e];
    AtIs(t, q);
    AtIs(u, q);
    var j :| 0 < j <= |q| && EntryAt(t, q, j, Allowed);
    if p <= q && j == |p| {
      assert q[..j] == p;
      assert EntryAt(t, p, |p|, Allowed) by { assert p[..|p|] == p; }
      AtIs(t, p);
      var k :| 0 < k < |p| && EntryAt(t, p, k, Allowed);
      assert p[..k] == q[..k];
      BlockingChanges(t, p, e, q, k, Allowed);
    } else {
      BlockingChanges(t, p, e, q, j, Allowed);
    }
  }

  lemma BlockedStays(t: Table, p: Path, e: Entry, q: Path)
    requires p != [] && e.status == Blocked && e.ttl == 0 && Harmless(t, p)
    requires At(t, q).Match? && At(t, q).status == Blocked
    ensures At(t[p := e], q).Match? && At(t[p := e], q).status == Blocked
    ensures Effective(At(t[p := e], q).ttl) == Effective(At(t, q).ttl)
  {
    var u := t[p := e];
    AtIs(t, q);
    AtIs(u, q);
    var b := Deepest(t, q, |q|, Blocked);
    forall j: nat, s: Status | 0 < j <= |q|
      ensures if p <= q && j == |p| then EntryAt(u, q, j, s) <==> s == Blocked
              else (EntryAt(u, q, j, s) <==> EntryAt(t, q, j, s)) && (q[..j] in t ==> u[q[..j]] == t[q[..j]])
    {
      BlockingChanges(t, p, e, q, j, s);
    }
    var n := if p <= q && b <= |p| then |p| else b;
    assert EntryAt(u, q, n, Blocked);
    assert forall j :: 0 < j <= |q| ==> !EntryAt(u, q, j, Allowed);
    DeepestIs(u, q, |q|, Blocked, n);
    if p <= q && b <= |p| {
      BlockedAbove(t, p, q, b);
      assert q[..|p|] == p && At(u, q).ttl == 0;
    } else {
      assert u[q[..b]] == t[q[..b]];
    }
  }

  // The entry that blocks q lies on p: it blocks p as well.
  lemma BlockedAbove(t: Table, p: Path, q: Path, b: nat)
    requires p <= q && 0 < b <= |p| && b == Deepest(t, q, |q|, Blocked)
    requires forall j :: 0 < j <= |q| ==> !EntryAt(t, q, j, Allowed)
    ensures At(t, p) == Match(Blocked, t[q[..b]].ttl)
  {
    forall j | 0 < j <= |p| ensures p[..j] == q[..j] {}
    forall j: nat, s: Status | 0 < j <= |p| ensures EntryAt(t, p, j, s) <==> EntryAt(t, q, j, s) {}
    AtIs(t, p);
    DeepestIs(t, p, |p|, Blocked, b);
  }

  lemma GravityInsertKeepsIff(t: Table, p: Path, e: Entry)
    requires p != [] && e.status == Blocked && e.ttl == 0
    ensures KeepsDecided(t, t[p := e]) <==> Harmless(t, p)
  {
    var u := t[p := e];
    if Harmless(t, p) {
      forall q ensures DecisionKept(t, u, q) { BlockingIsHarmless(t, p, e, q); }
    } else {
      BlockingHurts(t, p, e);
      assert !DecisionKept(t, u, p);
    }
  }

  // ------------------------------------------------------------------
  // Losing an entry
  // ------------------------------------------------------------------

  ghost predicate AllowedAbove(t: Table, p: Path) {
    exists k :: 0 < k < |p| && EntryAt(t, p, k, Allowed)
  }

  // The deepest block strictly above p; 0 when there is none.
  function BlockAbove(t: Table, p: Path): (b: nat)
    requires p != []
    ensures b < |p|
    ensures b > 0 ==> EntryAt(t, p, b, Blocked)
    ensures forall j :: b < j < |p| ==> !EntryAt(t, p, j, Blocked)
  {
    Deepest(t, p, |p| - 1, Blocked)
  }

  // Losing p's entry keeps every decision exactly when p is allowed from above,
  // or its entry decides nothing that a block above would not decide alike.
  ghost predicate Losable(t: Table, p: Path)
    requires p != []
  {
    || AllowedAbove(t, p)
    || (&& !EntryAt(t, p, |p|, Allowed)
        && (EntryAt(t, p, |p|, Blocked) ==>
              BlockAbove(t, p) > 0 && Effective(t[p[..BlockAbove(t, p)]].ttl) == Effective(t[p[..|p|]].ttl)))
  }

  lemma LosingChanges(t: Table, p: Path, q: Path, j: nat, s: Status)
    requires p != [] && 0 < j <= |q|
    ensures var u := t - {p};
      if p <= q && j == |p| then !EntryAt(u, q, j, s)
      else (EntryAt(u, q, j, s) <==> EntryAt(t, q, j, s)) && (q[..j] in t ==> q[..j] in u && u[q[..j]] == t[q[..j]])
  {
    assert q[..j] == p <==> p <= q && j == |p|;
  }

  // Above p the two paths are one.
  lemma SharedPrefix(t: Table, p: Path, q: Path, j: nat, s: Status)
    requires p <= q && j <= |p|
    ensures q[..j] == p[..j] && (EntryAt(t, q, j, s) <==> EntryAt(t, p, j, s))
  {
  }

  lemma LosingIsHarmless(t: Table, p: Path, q: Path)
    requires p != [] && Losable(t, p)
    ensures DecisionKept(t, t - {p}, q)
  {
    var u := t - {p};
    AtIs(t, q);
    AtIs(u, q);
    forall j: nat, s: Status | 0 < j <= |q|
      ensures if p <= q && j == |p| then !EntryAt(u, q, j, s)
              else (EntryAt(u, q, j, s) <==> EntryAt(t, q, j, s)) && (q[..j] in t ==> q[..j] in u && u[q[..j]] == t[q[..j]])
    {
      LosingChanges(t, p, q, j, s);
    }
    if p <= q {
      LosingBelow(t, p, q);
    } else {
      DeepestIs(u, q, |q|, Blocked, Deepest(t, q, |q|, Blocked));
    }
  }

  lemma LosingBelow(t: Table, p: Path, q: Path)
    requires p != [] && Losable(t, p) && p <= q
    ensures DecisionKept(t, t - {p}, q)
  {
    var u := t - {p};
    AtIs(t, q);
    AtIs(u, q);
    forall j: nat, s: Status | 0 < j <= |q|
      ensures if j == |p| then !EntryAt(u, q, j, s)
              else (EntryAt(u, q, j, s) <==> EntryAt(t, q, j, s)) && (q[..j] in t ==> q[..j] in u && u[q[..j]] == t[q[..j]])
    {
      LosingChanges(t, p, q, j, s);
    }
    forall j: nat, s: Status | 0 < j <= |p| ensures q[..j] == p[..j] && (EntryAt(t, q, j, s) <==> EntryAt(t, p, j, s)) {
      SharedPrefix(t, p, q, j, s);
    }
    assert p[..|p|] == p;
    if AllowedAbove(t, p) {
      var k :| 0 < k < |p| && EntryAt(t, p, k, Allowed);
      assert EntryAt(u, q, k, Allowed) && EntryAt(t, q, k, Allowed);
    } else {
      var b := Deepest(t, q, |q|, Blocked);
      DeepestIs(u, q, |q|, Blocked, if b == |p| then BlockAbove(t, p) else b);
    }
  }

  lemma LosingKeepsIff(t: Table, p: Path)
    requires p != []
    ensures KeepsDecided(t, t - {p}) <==> Losable(t, p)
  {
    var u := t - {p};
    if Losable(t, p) {
      forall q ensures DecisionKept(t, u, q) { LosingIsHarmless(t, p, q); }
    } else {
      LosingHurts(t, p);
      assert !DecisionKept(t, u, p);
    }
  }

  // Otherwise it is p itself whose decision changes.
  lemma LosingHurts(t: Table, p: Path)
    requires p != [] && !Losable(t, p)
    ensures Decided(At(t, p)) && !Same(At(t, p), At(t - {p}, p))
  {
    var u := t - {p};
    AtIs(t, p);
    AtIs(u, p);
    forall j: nat, s: Status | 0 < j <= |p|
      ensures if j == |p| then !EntryAt(u, p, j, s)
              else (EntryAt(u, p, j, s) <==> EntryAt(t, p, j, s)) && (p[..j] in t ==> p[..j] in u && u[p[..j]] == t[p[..j]])
    {
      LosingChanges(t, p, p, j, s);
    }
    assert p[..|p|] == p;
    if EntryAt(t, p, |p|, Blocked) {
      DeepestIs(t, p, |p|, Blocked, |p|);
      DeepestIs(u, p, |p|, Blocked, BlockAbove(t, p));
    }
  }

  lemma BlockingHurts(t: Table, p: Path, e: Entry)
    requires p != [] && e.status == Blocked && e.ttl == 0 && !Harmless(t, p)
    ensures Decided(At(t, p)) && !Same(At(t, p), At(t[p := e], p))
  {
    var u := t[p := e];
    assert p[..|p|] == p;
    AtIs(t, p);
    AtIs(u, p);
    assert EntryAt(u, p, |p|, Blocked);
    DeepestIs(u, p, |p|, Blocked, |p|);
    forall j | 0 < j < |p| ensures EntryAt(u, p, j, Allowed) ==> EntryAt(t, p, j, Allowed) {
      BlockingChanges(t, p, e, p, j, Allowed);
    }
  }

  // ------------------------------------------------------------------
  // Promotions, whatever their allocations do
  // ------------------------------------------------------------------

  // A promotion at p may set p's entry or lose it.
  ghost predicate Safe(t: Table, p: Path) {
    p != [] ==>
      || AllowedAbove(t, p)
      || (&& !EntryAt(t, p, |p|, Allowed)
          && (BlockAbove(t, p) > 0 ==> Effective(t[p[..BlockAbove(t, p)]].ttl) == W.DEFAULT_BLOCK_TTL)
          && (EntryAt(t, p, |p|, Blocked) ==> BlockAbove(t, p) > 0 && Effective(t[p[..|p|]].ttl) == W.DEFAULT_BLOCK_TTL))
  }

  // Neither changes a decision exactly when p is safe.
  lemma SafeIff(t: Table, p: Path, e: Entry)
    requires p != [] && e.status == Blocked && e.ttl == 0
    ensures KeepsDecided(t, t[p := e]) && KeepsDecided(t, t - {p}) <==> Safe(t, p)
  {
    GravityInsertKeepsIff(t, p, e);
    LosingKeepsIff(t, p);
    SafeIsBoth(t, p);
  }

  lemma SafeIsBoth(t: Table, p: Path)
    requires p != []
    ensures Safe(t, p) <==> Harmless(t, p) && Losable(t, p)
  {
    AtIs(t, p);
    assert p[..|p|] == p;
    if !AllowedAbove(t, p) {
      DeepestIs(t, p, |p|, Blocked, if EntryAt(t, p, |p|, Blocked) then |p| else BlockAbove(t, p));
    }
  }

  // Promotions that lose no entry: then it is enough that setting p's entry is
  // harmless.
  ghost predicate SafeFor(t: Table, p: Path, lossless: bool) {
    if lossless then p != [] ==> Harmless(t, p) else Safe(t, p)
  }

  // The condition is exact either way.
  lemma SafeForIff(t: Table, p: Path, e: Entry, lossless: bool)
    requires p != [] && e.status == Blocked && e.ttl == 0
    ensures KeepsDecided(t, t[p := e]) && (lossless || KeepsDecided(t, t - {p})) <==> SafeFor(t, p, lossless)
  {
    GravityInsertKeepsIff(t, p, e);
    SafeIff(t, p, e);
  }

  lemma SafeForIsHarmless(t: Table, p: Path, lossless: bool)
    requires p != [] && SafeFor(t, p, lossless)
    ensures Harmless(t, p)
  {
    SafeIsBoth(t, p);
  }

  // The deepest block at or above p.
  function BlockOn(t: Table, p: Path): (b: nat)
    ensures b <= |p|
    ensures b > 0 ==> EntryAt(t, p, b, Blocked)
    ensures forall j :: b < j <= |p| ==> !EntryAt(t, p, j, Blocked)
  {
    Deepest(t, p, |p|, Blocked)
  }

  // What is harmless, entry by entry.
  lemma HarmlessIs(t: Table, p: Path)
    requires p != []
    ensures Harmless(t, p) <==>
      || AllowedAbove(t, p)
      || (!EntryAt(t, p, |p|, Allowed) && (BlockOn(t, p) > 0 ==> Effective(t[p[..BlockOn(t, p)]].ttl) == W.DEFAULT_BLOCK_TTL))
  {
    AtIs(t, p);
  }

  // What is safe stays safe: under a change that leaves statuses and TTLs alone,
  lemma SafeSeesDecisions(t: Table, u: Table, p: Path, lossless: bool)
    requires SafeFor(t, p, lossless)
    requires forall j: nat, s: Status :: 0 < j <= |p| && s != Review ==> (EntryAt(t, p, j, s) <==> EntryAt(u, p, j, s))
    requires forall j: nat :: 0 < j <= |p| && EntryAt(t, p, j, Blocked) ==> p[..j] in u && u[p[..j]].ttl == t[p[..j]].ttl
    ensures SafeFor(u, p, lossless)
  {
    if p != [] {
      HarmlessIs(t, p);
      HarmlessIs(u, p);
      if AllowedAbove(t, p) {
        var k :| 0 < k < |p| && EntryAt(t, p, k, Allowed);
        assert EntryAt(u, p, k, Allowed);
      } else if lossless {
        DeepestIs(u, p, |p|, Blocked, BlockOn(t, p));
      } else {
        DeepestIs(u, p, |p| - 1, Blocked, BlockAbove(t, p));
      }
    }
  }

  // under any change of a path it is not at or below,
  lemma Elsewhere(t: Table, u: Table, p: Path, q: Path, lossless: bool)
    requires t - {q} == u - {q} && !(q <= p)
    ensures DecisionKept(t, u, p)
    ensures SafeFor(t, p, lossless) ==> SafeFor(u, p, lossless)
  {
    forall j: nat, s: Status | 0 < j <= |p|
      ensures (EntryAt(t, p, j, s) <==> EntryAt(u, p, j, s)) && (p[..j] in t ==> p[..j] in u && u[p[..j]] == t[p[..j]])
    {
      assert p[..j] != q;
      assert p[..j] in t <==> p[..j] in t - {q};
      assert p[..j] in u <==> p[..j] in u - {q};
      if p[..j] in t { assert (t - {q})[p[..j]] == (u - {q})[p[..j]]; }
    }
    AtIs(t, p);
    AtIs(u, p);
    DeepestIs(u, p, |p|, Blocked, Deepest(t, p, |p|, Blocked));
    if SafeFor(t, p, lossless) { SafeSeesDecisions(t, u, p, lossless); }
  }

  // under a promotion elsewhere,
  lemma SafeUnderBlocking(t: Table, p: Path, q: Path, e: Entry, lossless: bool)
    requires SafeFor(t, p, lossless) && SafeFor(t, q, lossless) && q != [] && p != q && e.status == Blocked && e.ttl == 0
    ensures SafeFor(t[q := e], p, lossless)
  {
    var u := t[q := e];
    if q <= p {
      forall j: nat, s: Status | 0 < j <= |p|
        ensures if j == |q| then EntryAt(u, p, j, s) <==> s == Blocked
                else (EntryAt(u, p, j, s) <==> EntryAt(t, p, j, s)) && (p[..j] in t ==> u[p[..j]] == t[p[..j]])
      {
        BlockingChanges(t, q, e, p, j, s);
      }
      HarmlessIs(t, p);
      HarmlessIs(u, p);
      if AllowedAbove(t, p) {
        SafeForIsHarmless(t, q, lossless);
        AllowedElsewhere(t, q, p);
        var k :| 0 < k < |p| && k != |q| && EntryAt(t, p, k, Allowed);
        assert EntryAt(u, p, k, Allowed);
      } else if lossless {
        var b := BlockOn(t, p);
        DeepestIs(u, p, |p|, Blocked, if b > |q| then b else |q|);
        assert p[..|q|] == q;
      } else {
        var b := BlockAbove(t, p);
        DeepestIs(u, p, |p| - 1, Blocked, if b > |q| then b else |q|);
        assert p[..|q|] == q;
      }
    } else {
      assert t - {q} == u - {q};
      Elsewhere(t, u, p, q, lossless);
    }
  }

  // and under the loss of an entry elsewhere.
  lemma SafeUnderLosing(t: Table, p: Path, q: Path)
    requires Safe(t, p) && Safe(t, q) && q != [] && p != q
    ensures Safe(t - {q}, p)
  {
    var u := t - {q};
    if q <= p {
      if AllowedAbove(t, p) {
        SafeIsBoth(t, q);
        AllowedElsewhere(t, q, p);
        var k :| 0 < k < |p| && k != |q| && EntryAt(t, p, k, Allowed);
        LosingChanges(t, q, p, k, Allowed);
        assert EntryAt(u, p, k, Allowed);
      } else {
        BlockedElsewhere(t, q, p);
      }
    } else {
      assert t - {q} == u - {q};
      Elsewhere(t, u, p, q, false);
    }
  }

  // A path a promotion does not hurt is not what allows a name below it.
  lemma AllowedElsewhere(t: Table, q: Path, p: Path)
    requires q != [] && q < p && Harmless(t, q) && AllowedAbove(t, p)
    ensures exists k :: 0 < k < |p| && k != |q| && EntryAt(t, p, k, Allowed)
  {
    var k :| 0 < k < |p| && EntryAt(t, p, k, Allowed);
    if k == |q| {
      SharedPrefix(t, q, p, k, Allowed);
      HarmlessIs(t, q);
      var i :| 0 < i < |q| && EntryAt(t, q, i, Allowed);
      SharedPrefix(t, q, p, i, Allowed);
    }
  }

  // Nor the only thing that blocks one.
  lemma BlockedElsewhere(t: Table, q: Path, p: Path)
    requires q != [] && q < p && Safe(t, q) && Safe(t, p) && !AllowedAbove(t, p)
    ensures Safe(t - {q}, p)
  {
    var u := t - {q};
    forall j: nat, s: Status | 0 < j <= |p|
      ensures if j == |q| then !EntryAt(u, p, j, s)
              else (EntryAt(u, p, j, s) <==> EntryAt(t, p, j, s)) && (p[..j] in t ==> p[..j] in u && u[p[..j]] == t[p[..j]])
    {
      LosingChanges(t, q, p, j, s);
    }
    forall j: nat, s: Status | 0 < j <= |q| ensures p[..j] == q[..j] && (EntryAt(t, p, j, s) <==> EntryAt(t, q, j, s)) {
      SharedPrefix(t, q, p, j, s);
    }
    var b := BlockAbove(t, p);
    DeepestIs(u, p, |p| - 1, Blocked, if b == |q| then BlockAbove(t, q) else b);
  }

  // A path without entries but, perhaps, a REVIEW one of its own is safe.
  lemma NewIsSafe(t: Table, p: Path)
    requires forall j :: 0 < j <= |p| && p[..j] in t ==> t[p[..j]].status == Review
    ensures Safe(t, p) && forall lossless :: SafeFor(t, p, lossless)
  {
    if p != [] { SafeIsBoth(t, p); }
  }
}
