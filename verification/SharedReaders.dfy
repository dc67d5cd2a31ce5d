// Lookups under the shared lock, interleaved one access at a time.  The caches'
// locks let any number of lookups run together; an insert, an invalidation, a
// prune or a clear runs alone.
module SharedReaders {
  import opened Prelude
  import P = ProbeTable

  // A slot with its bytes: an invalid slot keeps what it held until it is
  // overwritten, and a lookup that found it valid goes on reading it.
  datatype Cell<K> = Cell(valid: bool, key: K, stamp: P.U64, ttl: nat)

  // Where a lookup is.  Probing: about to read the valid flag of the slot.
  // Found: it was valid and holds the key; about to read its timestamp.
  // Dropping: expired; about to clear the flag.  Counting: flag cleared, about to
  // lower the count.  Reading: copied out, about to read the timestamp again, as
  // the answer cache does.  Swapping: about to compare and swap it.
  datatype Phase =
    | Probing(step: nat)
    | Found(at: nat)
    | Dropping(at: nat)
    | Counting
    | Reading(at: nat)
    | Swapping(at: nat, seen: P.U64)
    | Finished(hit: bool)

  // A lookup with its probe order and its reading of the clock.
  datatype Reader<K> = Reader(key: K, order: seq<nat>, now: P.U64, phase: Phase)

  datatype State<K> = State(cells: seq<Cell<K>>, count: int, readers: map<nat, Reader<K>>)

  datatype Step<K> =
    | Enter(id: nat, key: K, order: seq<nat>, now: P.U64)
    | Access(id: nat)
    | Leave(id: nat)
    | Alone(cells: seq<Cell<K>>)
    | Clear

  function NumValid<K>(cells: seq<Cell<K>>): nat {
    if cells == [] then 0 else NumValid(Front(cells)) + (if Last(cells).valid then 1 else 0)
  }

  predicate Expired<K>(c: Cell<K>, now: P.U64) {
    P.PastTtl(c.stamp, c.ttl, now)
  }

  ghost predicate PhaseOk(p: Phase, order: seq<nat>, n: nat) {
    && (forall i :: 0 <= i < |order| ==> order[i] < n)
    && (p.Probing? ==> p.step < |order|)
    && (p.Found? || p.Dropping? || p.Reading? || p.Swapping? ==> p.at < n)
  }

  ghost predicate Sane<K>(s: State<K>) {
    forall i :: i in s.readers ==> PhaseOk(s.readers[i].phase, s.readers[i].order, |s.cells|)
  }

  // An operation that runs alone changes the count by as much as it changes the
  // number of valid slots.
  ghost predicate Enabled<K>(s: State<K>, step: Step<K>) {
    match step
    case Enter(id, key, order, now) => id !in s.readers && order != [] && forall i :: 0 <= i < |order| ==> order[i] < |s.cells|
    case Access(id) => id in s.readers && !s.readers[id].phase.Finished?
    case Leave(id) => id in s.readers && s.readers[id].phase.Finished?
    case Alone(cells) => s.readers == map[] && |cells| == |s.cells|
    case Clear => s.readers == map[]
  }

  function Next(order: seq<nat>, step: nat): Phase {
    if step + 1 < |order| then Probing(step + 1) else Finished(false)
  }

  // A timestamp read before now is to be swapped for it.
  function Renewing(at: nat, seen: P.U64, now: P.U64): Phase {
    if seen < now then Swapping(at, seen) else Finished(true)
  }

  // One access of a lookup: its new phase, and what it does to the cells and the
  // count.  `drop` tells the answer cache, which drops an expired match and reads
  // the timestamp of a live one twice, from the verdict cache, which leaves it and
  // reads the timestamp once.
  function OneAccess<K(==)>(cells: seq<Cell<K>>, count: int, r: Reader<K>, drop: bool): (seq<Cell<K>>, int, Phase)
    requires PhaseOk(r.phase, r.order, |cells|)
  {
    match r.phase
    case Probing(step) =>
      var c := cells[r.order[step]];
      (cells, count, if c.valid && c.key == r.key then Found(r.order[step]) else Next(r.order, step))
    case Found(at) =>
      (cells, count,
       if Expired(cells[at], r.now) then (if drop then Dropping(at) else Finished(false))
       else if drop then Reading(at) else Renewing(at, cells[at].stamp, r.now))
    case Dropping(at) =>
      (cells[at := cells[at].(valid := false)], count, Counting)
    case Counting =>
      (cells, count - 1, Finished(false))
    case Reading(at) =>
      (cells, count, Renewing(at, cells[at].stamp, r.now))
    case Swapping(at, seen) =>
      (if cells[at].stamp == seen then cells[at := cells[at].(stamp := r.now)] else cells, count, Finished(true))
    case Finished(hit) => (cells, count, r.phase)
  }

  ghost function Apply<K>(s: State<K>, step: Step<K>, drop: bool): State<K>
    requires Sane(s) && Enabled(s, step)
  {
    match step
    case Enter(id, key, order, now) =>
      s.(readers := s.readers[id := Reader(key, order, now, Probing(0))])
    case Access(id) =>
      var (cells, count, phase) := OneAccess(s.cells, s.count, s.readers[id], drop);
      State(cells, count, s.readers[id := s.readers[id].(phase := phase)])
    case Leave(id) =>
      s.(readers := s.readers - {id})
    case Alone(cells) =>
      State(cells, s.count + NumValid(cells) - NumValid(s.cells), s.readers)
    case Clear =>
      State(seq(|s.cells|, i requires 0 <= i < |s.cells| => s.cells[i].(valid := false)), 0, s.readers)
  }

  // ------------------------------------------------------------------
  // A lookup with the lock to itself
  // ------------------------------------------------------------------

  // An upper bound on the accesses still to come.
  function Left(p: Phase, n: nat): nat {
    match p
    case Probing(step) => 5 + (if step < n then n - step else 0)
    case Found(at) => 4
    case Dropping(at) => 3
    case Reading(at) => 3
    case Swapping(at, seen) => 2
    case Counting => 2
    case Finished(hit) => 0
  }

  // All its accesses, with none of another in between.
  ghost function Solo<K>(cells: seq<Cell<K>>, count: int, r: Reader<K>, drop: bool): (seq<Cell<K>>, int, Phase)
    requires PhaseOk(r.phase, r.order, |cells|)
    decreases Left(r.phase, |r.order|)
  {
    if r.phase.Finished? then (cells, count, r.phase)
    else
      var (cells', count', phase) := OneAccess(cells, count, r, drop);
      Solo(cells', count', r.(phase := phase), drop)
  }

  // The cells as the operations that run alone see them.
  function SlotsOf<K>(cells: seq<Cell<K>>): (s: P.Slots<K, ()>)
    ensures |s| == |cells|
    ensures forall i :: 0 <= i < |s| ==> s[i] == if cells[i].valid then P.Used(cells[i].key, 0, cells[i].stamp, cells[i].ttl, ()) else P.Empty
  {
    seq(|cells|, i requires 0 <= i < |cells| => if cells[i].valid then P.Used(cells[i].key, 0, cells[i].stamp, cells[i].ttl, ()) else P.Empty)
  }

  // From the slot at step on, it goes on to the first one with its key.
  lemma {:induction false} SoloProbes<K>(cells: seq<Cell<K>>, count: int, r: Reader<K>, drop: bool, step: nat)
    requires r.phase == Probing(step) && PhaseOk(r.phase, r.order, |cells|)
    ensures var i := P.Find(SlotsOf(cells), r.order, r.key, 0, step);
      Solo(cells, count, r, drop) ==
        if i == |r.order| then (cells, count, Finished(false)) else Solo(cells, count, r.(phase := Found(r.order[i])), drop)
    decreases |r.order| - step
  {
    var c := cells[r.order[step]];
    assert P.Holds(SlotsOf(cells)[r.order[step]], r.key, 0) <==> c.valid && c.key == r.key;
    if !(c.valid && c.key == r.key) && step + 1 < |r.order| {
      SoloProbes(cells, count, r.(phase := Probing(step + 1)), drop, step + 1);
    }
  }

  // What it does to the slot it has found.
  lemma SoloFound<K>(cells: seq<Cell<K>>, count: int, r: Reader<K>, drop: bool, at: nat)
    requires r.phase == Found(at) && PhaseOk(r.phase, r.order, |cells|) && cells[at].valid
    ensures var c := cells[at];
      Solo(cells, count, r, drop) ==
        if Expired(c, r.now) then (if drop then (cells[at := c.(valid := false)], count - 1, Finished(false)) else (cells, count, Finished(false)))
        else (cells[at := c.(stamp := if c.stamp < r.now then r.now else c.stamp)], count, Finished(true))
  {
    hide P.PastTtl;
    var c := cells[at];
    assert cells[at := c] == cells;
    if Expired(c, r.now) {
      if drop {
        var r2 := r.(phase := Dropping(at));
        var less := cells[at := c.(valid := false)];
        assert Solo(less, count, r2.(phase := Counting), drop) == (less, count - 1, Finished(false));
        assert Solo(cells, count, r2, drop) == (less, count - 1, Finished(false));
      }
    } else {
      SoloRenews(cells, count, r, drop, at);
      if drop { assert Solo(cells, count, r.(phase := Reading(at)), drop) == Solo(cells, count, r.(phase := Renewing(at, c.stamp, r.now)), drop); }
    }
  }

  lemma SoloRenews<K>(cells: seq<Cell<K>>, count: int, r: Reader<K>, drop: bool, at: nat)
    requires at < |cells| && PhaseOk(Found(at), r.order, |cells|)
    ensures var c := cells[at];
      Solo(cells, count, r.(phase := Renewing(at, c.stamp, r.now)), drop) ==
        (cells[at := c.(stamp := if c.stamp < r.now then r.now else c.stamp)], count, Finished(true))
  {
    assert cells[at := cells[at]] == cells;
  }

  // Without interleaving it is the lookup of the sequential cache: the same slots
  // afterwards, a hit exactly when that hits, and a slot less on the count exactly
  // when that drops one.
  lemma SoloIsLookup<K(!new)>(cells: seq<Cell<K>>, count: int, key: K, order: seq<nat>, now: P.U64, drop: bool)
    requires P.OrderOk(order, |cells|)
    ensures var (cells', count', phase) := Solo(cells, count, Reader(key, order, now, Probing(0)), drop);
      var (s, hit) := P.Looked(SlotsOf(cells), order, key, 0, now, drop);
      && SlotsOf(cells') == s && phase == Finished(hit.Some?)
      && count' - P.NumUsed(s) == count - P.NumUsed(SlotsOf(cells))
  {
    hide P.PastTtl, Solo, P.NumUsed;
    var r := Reader(key, order, now, Probing(0));
    var slots := SlotsOf(cells);
    SoloProbes(cells, count, r, drop, 0);
    var i := P.Find(slots, order, key, 0, 0);
    if i < |order| {
      var at, c := order[i], cells[order[i]];
      SoloFound(cells, count, r.(phase := Found(at)), drop, at);
      var renewed := c.(stamp := if c.stamp < now then now else c.stamp);
      assert P.Stale(slots[at], now) <==> Expired(c, now);
      assert SlotsOf(cells[at := c.(valid := false)]) == slots[at := P.Empty];
      assert SlotsOf(cells[at := renewed]) == slots[at := slots[at].(stamp := renewed.stamp)];
      P.NumUsedUpdate(slots, at, P.Empty);
      P.NumUsedUpdate(slots, at, slots[at].(stamp := renewed.stamp));
    }
  }

  // ------------------------------------------------------------------
  // Timestamps and flags
  // ------------------------------------------------------------------

  // What a step under the shared lock may do to a slot.
  predicate Aged<K(==)>(c: Cell<K>, d: Cell<K>) {
    d.key == c.key && d.ttl == c.ttl && c.stamp <= d.stamp && (d.valid ==> c.valid)
  }

  // A swap is only tried with a reading before now.
  ghost predicate SwapsForward<K>(s: State<K>) {
    forall i :: i in s.readers && s.readers[i].phase.Swapping? ==> s.readers[i].phase.seen < s.readers[i].now
  }

  // Between operations that run alone, no timestamp goes back and no dropped
  // slot comes to life again, whatever the interleaving.
  lemma ReadersOnlyAge<K>(s: State<K>, step: Step<K>, drop: bool)
    requires Sane(s) && SwapsForward(s) && Enabled(s, step) && Shared(step)
    ensures var t := Apply(s, step, drop);
      && Sane(t) && SwapsForward(t) && |t.cells| == |s.cells|
      && forall i :: 0 <= i < |s.cells| ==> Aged(s.cells[i], t.cells[i])
  {
  }

  // ------------------------------------------------------------------
  // The count
  // ------------------------------------------------------------------

  function Pending<K>(readers: map<nat, Reader<K>>): set<nat> {
    set i | i in readers && readers[i].phase == Counting
  }

  lemma {:induction false} NumValidUpdate<K>(cells: seq<Cell<K>>, i: nat, c: Cell<K>)
    requires i < |cells|
    ensures NumValid(cells[i := c]) == NumValid(cells) - (if cells[i].valid then 1 else 0) + (if c.valid then 1 else 0)
  {
    var d := cells[i := c];
    if i == |cells| - 1 {
      assert Front(d) == Front(cells);
    } else {
      assert Front(d) == Front(cells)[i := c];
      NumValidUpdate(Front(cells), i, c);
    }
  }

  lemma {:induction false} NoneValid<K>(cells: seq<Cell<K>>)
    requires forall i :: 0 <= i < |cells| ==> !cells[i].valid
    ensures NumValid(cells) == 0
  {
    if cells != [] { NoneValid(Front(cells)); }
  }

  lemma PendingUpdate<K>(readers: map<nat, Reader<K>>, i: nat, r: Reader<K>)
    ensures |Pending(readers[i := r])| == |Pending(readers)|
      - (if i in readers && readers[i].phase == Counting then 1 else 0) + (if r.phase == Counting then 1 else 0)
  {
    assert Pending(readers[i := r]) == if r.phase == Counting then Pending(readers) + {i} else Pending(readers) - {i};
  }

  lemma PendingRemove<K>(readers: map<nat, Reader<K>>, i: nat)
    requires i in readers && readers[i].phase != Counting
    ensures Pending(readers - {i}) == Pending(readers)
  {
  }

  // By how much the count, with what is still to be taken off it, is below the
  // number of valid slots.
  function Deficit<K>(s: State<K>): int {
    NumValid(s.cells) - (s.count - |Pending(s.readers)|)
  }

  // A lookup about to clear a flag that another one has cleared already.
  ghost predicate Redundant<K>(s: State<K>, step: Step<K>)
    requires Sane(s)
  {
    && step.Access? && step.id in s.readers
    && s.readers[step.id].phase.Dropping?
    && !s.cells[s.readers[step.id].phase.at].valid
  }

  lemma AccessDeficit<K>(s: State<K>, id: nat, drop: bool)
    requires Sane(s) && Enabled(s, Access(id))
    ensures Deficit(Apply(s, Access(id), drop)) == Deficit(s) + (if Redundant(s, Access(id)) then 1 else 0)
  {
    hide Expired;
    var r := s.readers[id];
    var (cells, count, phase) := OneAccess(s.cells, s.count, r, drop);
    PendingUpdate(s.readers, id, r.(phase := phase));
    if r.phase.Dropping? || r.phase.Swapping? {
      NumValidUpdate(s.cells, r.phase.at, cells[r.phase.at]);
      if cells != s.cells { assert cells == s.cells[r.phase.at := cells[r.phase.at]]; }
    }
  }

  // Nothing but a redundant drop moves the deficit, and a clear resets it.
  lemma StepDeficit<K>(s: State<K>, step: Step<K>, drop: bool)
    requires Sane(s) && Enabled(s, step)
    ensures Deficit(Apply(s, step, drop)) == if step.Clear? then 0 else Deficit(s) + (if Redundant(s, step) then 1 else 0)
  {
    hide OneAccess;
    match step
    case Enter(id, key, order, now) => PendingUpdate(s.readers, id, Reader(key, order, now, Probing(0)));
    case Access(id) => AccessDeficit(s, id, drop);
    case Leave(id) => PendingRemove(s.readers, id);
    case Alone(cells) =>
    case Clear =>
      NoneValid(Apply(s, step, drop).cells);
      assert Pending(s.readers) == {};
  }

  ghost function Run<K>(s: State<K>, steps: seq<Step<K>>, drop: bool): State<K>
    requires Feasible(s, steps, drop)
    decreases |steps|
  {
    if steps == [] then s else Run(Apply(s, steps[0], drop), steps[1..], drop)
  }

  ghost predicate Feasible<K>(s: State<K>, steps: seq<Step<K>>, drop: bool)
    decreases |steps|
  {
    steps == [] || (Sane(s) && Enabled(s, steps[0]) && Feasible(Apply(s, steps[0], drop), steps[1..], drop))
  }

  predicate Shared<K>(step: Step<K>) {
    step.Enter? || step.Access? || step.Leave?
  }

  // So it is over any run of lookups from a free lock.
  lemma {:induction false} LookupsOnlyAge<K>(s: State<K>, steps: seq<Step<K>>, drop: bool)
    requires Sane(s) && SwapsForward(s) && Feasible(s, steps, drop)
    requires forall k :: 0 <= k < |steps| ==> Shared(steps[k])
    ensures var t := Run(s, steps, drop); |t.cells| == |s.cells| && forall i :: 0 <= i < |s.cells| ==> Aged(s.cells[i], t.cells[i])
    decreases |steps|
  {
    if steps != [] {
      hide OneAccess;
      assert Shared(steps[0]);
      ReadersOnlyAge(s, steps[0], drop);
      LookupsOnlyAge(Apply(s, steps[0], drop), steps[1..], drop);
    }
  }

  // The redundant drops of a run since its last clear, on top of soFar.
  ghost function Drift<K>(s: State<K>, steps: seq<Step<K>>, drop: bool, soFar: int): int
    requires Feasible(s, steps, drop)
    decreases |steps|
  {
    if steps == [] then soFar
    else Drift(Apply(s, steps[0], drop), steps[1..], drop,
               if steps[0].Clear? then 0 else soFar + (if Redundant(s, steps[0]) then 1 else 0))
  }

  lemma {:induction false} RunDeficit<K>(s: State<K>, steps: seq<Step<K>>, drop: bool)
    requires Feasible(s, steps, drop)
    ensures Deficit(Run(s, steps, drop)) == Drift(s, steps, drop, Deficit(s))
    decreases |steps|
  {
    if steps != [] {
      StepDeficit(s, steps[0], drop);
      RunDeficit(Apply(s, steps[0], drop), steps[1..], drop);
    }
  }

  lemma {:induction false} DriftCounts<K>(s: State<K>, steps: seq<Step<K>>, drop: bool, soFar: int)
    requires Feasible(s, steps, drop) && soFar >= 0
    ensures Drift(s, steps, drop, soFar) >= 0
    decreases |steps|
  {
    if steps != [] {
      DriftCounts(Apply(s, steps[0], drop), steps[1..], drop,
                  if steps[0].Clear? then 0 else soFar + (if Redundant(s, steps[0]) then 1 else 0));
    }
  }

  // Whenever the lock is free, the count is below the number of valid slots by
  // exactly the number of redundant drops since the last clear, whatever lookups
  // and operations came before and however they were interleaved.  So it is never
  // above, and it is exact exactly if there was no redundant drop.
  lemma CountIsExactIff<K>(s: State<K>, steps: seq<Step<K>>, drop: bool)
    requires s.readers == map[] && s.count == NumValid(s.cells) && Feasible(s, steps, drop)
    ensures var t, drift := Run(s, steps, drop), Drift(s, steps, drop, 0);
      t.readers == map[] ==>
        && t.count == NumValid(t.cells) - drift
        && t.count <= NumValid(t.cells)
        && (t.count == NumValid(t.cells) <==> drift == 0)
  {
    assert Pending(s.readers) == {};
    RunDeficit(s, steps, drop);
    DriftCounts(s, steps, drop, 0);
    var t := Run(s, steps, drop);
    assert t.readers == map[] ==> Pending(t.readers) == {};
  }

  // No lookup of the verdict cache ever reaches the phases that drop a slot.
  ghost predicate NoneDrops<K>(s: State<K>) {
    forall i :: i in s.readers ==> !s.readers[i].phase.Dropping? && !s.readers[i].phase.Counting?
  }

  lemma SwapKeepsValid<K>(cells: seq<Cell<K>>, at: nat, stamp: P.U64)
    requires at < |cells|
    ensures NumValid(cells[at := cells[at].(stamp := stamp)]) == NumValid(cells)
  {
    NumValidUpdate(cells, at, cells[at].(stamp := stamp));
  }

  lemma StepKeepsExact<K>(s: State<K>, step: Step<K>)
    requires Sane(s) && Enabled(s, step) && NoneDrops(s) && s.count == NumValid(s.cells)
    ensures var t := Apply(s, step, false); NoneDrops(t) && t.count == NumValid(t.cells)
  {
    hide Expired;
    var t := Apply(s, step, false);
    if step.Access? && s.readers[step.id].phase.Swapping? {
      SwapKeepsValid(s.cells, s.readers[step.id].phase.at, s.readers[step.id].now);
    }
    if step.Clear? { NoneValid(t.cells); }
  }

  // The verdict cache's count stays exact.
  lemma {:induction false} VerdictCountExact<K>(s: State<K>, steps: seq<Step<K>>)
    requires NoneDrops(s) && s.count == NumValid(s.cells) && Feasible(s, steps, false)
    ensures var t := Run(s, steps, false); t.count == NumValid(t.cells)
    decreases |steps|
  {
    if steps != [] {
      StepKeepsExact(s, steps[0]);
      VerdictCountExact(Apply(s, steps[0], false), steps[1..]);
    }
  }

  ghost predicate Reaches<K(!new)>(s: State<K>, t: State<K>) {
    exists steps :: Feasible(s, steps, true) && Run(s, steps, true) == t
  }

  lemma ReachesItself<K(!new)>(s: State<K>)
    ensures Reaches(s, s)
  {
    assert Feasible(s, [], true) && Run(s, [], true) == s;
  }

  lemma ReachesBy<K(!new)>(s: State<K>, step: Step<K>, t: State<K>)
    requires Sane(s) && Enabled(s, step) && Reaches(Apply(s, step, true), t)
    ensures Reaches(s, t)
  {
    var rest :| Feasible(Apply(s, step, true), rest, true) && Run(Apply(s, step, true), rest, true) == t;
    assert ([step] + rest)[1..] == rest;
    assert Feasible(s, [step] + rest, true);
  }

  const LATE: P.U64 := 2_000_000_000

  // One slot, stored at time 0 for one second, and two lookups for its key.
  function Two<K>(key: K, valid: bool, count: int, p: Phase, q: Phase): State<K> {
    State([Cell(valid, key, 0, 1)], count, map[0 := Reader(key, [0], LATE, p), 1 := Reader(key, [0], LATE, q)])
  }

  lemma TwoEntries<R>(a: R, b: R, c: R)
    ensures map[0 := a, 1 := b][0 := c] == map[0 := c, 1 := b]
    ensures map[0 := a, 1 := b][1 := c] == map[0 := a, 1 := c]
  {
  }

  lemma FirstMoves<K(!new)>(key: K, valid: bool, count: int, p: Phase, q: Phase, valid': bool, count': int, p': Phase, t: State<K>)
    requires PhaseOk(p, [0], 1) && PhaseOk(q, [0], 1) && !p.Finished?
    requires OneAccess([Cell(valid, key, 0, 1)], count, Reader(key, [0], LATE, p), true) == ([Cell(valid', key, 0, 1)], count', p')
    requires Reaches(Two(key, valid', count', p', q), t)
    ensures Reaches(Two(key, valid, count, p, q), t)
  {
    hide OneAccess, Reaches;
    TwoEntries(Reader(key, [0], LATE, p), Reader(key, [0], LATE, q), Reader(key, [0], LATE, p'));
    assert Apply(Two(key, valid, count, p, q), Access(0), true) == Two(key, valid', count', p', q);
    ReachesBy(Two(key, valid, count, p, q), Access(0), t);
  }

  lemma SecondMoves<K(!new)>(key: K, valid: bool, count: int, p: Phase, q: Phase, valid': bool, count': int, q': Phase, t: State<K>)
    requires PhaseOk(p, [0], 1) && PhaseOk(q, [0], 1) && !q.Finished?
    requires OneAccess([Cell(valid, key, 0, 1)], count, Reader(key, [0], LATE, q), true) == ([Cell(valid', key, 0, 1)], count', q')
    requires Reaches(Two(key, valid', count', p, q'), t)
    ensures Reaches(Two(key, valid, count, p, q), t)
  {
    hide OneAccess, Reaches;
    TwoEntries(Reader(key, [0], LATE, p), Reader(key, [0], LATE, q), Reader(key, [0], LATE, q'));
    assert Apply(Two(key, valid, count, p, q), Access(1), true) == Two(key, valid', count', p, q');
    ReachesBy(Two(key, valid, count, p, q), Access(1), t);
  }

  lemma BothLeave<K(!new)>(key: K, count: int)
    ensures Reaches(Two(key, false, count, Finished(false), Finished(false)), State([Cell(false, key, 0, 1)], count, map[]))
  {
    var s, t := Two(key, false, count, Finished(false), Finished(false)), State([Cell(false, key, 0, 1)], count, map[]);
    ReachesItself(t);
    var one: State<K> := State(s.cells, count, map[1 := s.readers[1]]);
    assert Apply(one, Leave(1), true) == t;
    ReachesBy(one, Leave(1), t);
    assert Apply(s, Leave(0), true) == one;
    ReachesBy(s, Leave(0), t);
  }

  lemma BothEnter<K(!new)>(key: K, t: State<K>)
    requires Reaches(Two(key, true, 1, Probing(0), Probing(0)), t)
    ensures Reaches(State([Cell(true, key, 0, 1)], 1, map[]), t)
  {
    var s: State<K> := State([Cell(true, key, 0, 1)], 1, map[]);
    var one: State<K> := State(s.cells, 1, map[0 := Reader(key, [0], LATE, Probing(0))]);
    assert Apply(one, Enter(1, key, [0], LATE), true) == Two(key, true, 1, Probing(0), Probing(0));
    ReachesBy(one, Enter(1, key, [0], LATE), t);
    assert Apply(s, Enter(0, key, [0], LATE), true) == one;
    ReachesBy(s, Enter(0, key, [0], LATE), t);
  }

  // Both find the slot and see that it has expired.
  lemma BothFind<K(!new)>(key: K, t: State<K>)
    requires Reaches(Two(key, true, 1, Dropping(0), Dropping(0)), t)
    ensures Reaches(Two(key, true, 1, Probing(0), Probing(0)), t)
  {
    hide Reaches;
    SecondMoves(key, true, 1, Dropping(0), Found(0), true, 1, Dropping(0), t);
    FirstMoves(key, true, 1, Found(0), Found(0), true, 1, Dropping(0), t);
    SecondMoves(key, true, 1, Found(0), Probing(0), true, 1, Found(0), t);
    FirstMoves(key, true, 1, Probing(0), Probing(0), true, 1, Found(0), t);
  }

  // Both clear its flag and lower the count.
  lemma BothDrop<K(!new)>(key: K, t: State<K>)
    requires Reaches(Two(key, false, -1, Finished(false), Finished(false)), t)
    ensures Reaches(Two(key, true, 1, Dropping(0), Dropping(0)), t)
  {
    hide Reaches;
    Cleared(Cell(true, key, 0, 1));
    Cleared(Cell(false, key, 0, 1));
    SecondMoves(key, false, 0, Finished(false), Counting, false, -1, Finished(false), t);
    FirstMoves(key, false, 1, Counting, Counting, false, 0, Finished(false), t);
    SecondMoves(key, false, 1, Counting, Dropping(0), false, 1, Counting, t);
    FirstMoves(key, true, 1, Dropping(0), Dropping(0), false, 1, Counting, t);
  }

  lemma Cleared<K>(c: Cell<K>)
    ensures [c][0 := c.(valid := false)] == [c.(valid := false)]
  {
  }

  // The answer cache's does not: two lookups that both find the same expired
  // slot both take it off the count.
  lemma TwoReadersCountTwice<K(!new)>(key: K)
    ensures Reaches(State([Cell(true, key, 0, 1)], 1, map[]), State([Cell(false, key, 0, 1)], -1, map[]))
  {
    hide Reaches;
    var t: State<K> := State([Cell(false, key, 0, 1)], -1, map[]);
    BothLeave(key, -1);
    BothDrop(key, t);
    BothFind(key, t);
    BothEnter(key, t);
  }
}
