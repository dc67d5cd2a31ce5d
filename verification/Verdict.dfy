// What a table of entries says about a name: the closed form of the walk in
// radix_lookup.
module Verdict {
  import opened Prelude
  import opened Forest

  predicate EntryAt(t: Table, ls: Path, k: nat, s: Status)
    requires k <= |ls|
  {
    k > 0 && ls[..k] in t && t[ls[..k]].status == s
  }

  // The length of the longest prefix of ls, at most k labels, whose entry has
  // status s; 0 when there is none.
  function Deepest(t: Table, ls: Path, k: nat, s: Status): (d: nat)
    requires k <= |ls|
    ensures d <= k
    ensures d > 0 ==> EntryAt(t, ls, d, s)
    ensures forall j :: d < j <= k ==> !EntryAt(t, ls, j, s)
  {
    if k == 0 || EntryAt(t, ls, k, s) then k else Deepest(t, ls, k - 1, s)
  }

  // ALLOWED beats BLOCKED beats REVIEW; within a status the deepest wins.
  function WinnerUpTo(t: Table, ls: Path, k: nat): (w: nat)
    requires k <= |ls|
    ensures w <= k
    ensures w > 0 ==> ls[..w] in t
  {
    var a := Deepest(t, ls, k, Allowed);
    if a > 0 then a
    else
      var b := Deepest(t, ls, k, Blocked);
      if b > 0 then b else Deepest(t, ls, k, Review)
  }

  // The prefix of ls whose entry decides about ls; 0 when ls is unmatched.
  function Winner(t: Table, ls: Path): (w: nat)
    ensures w <= |ls|
    ensures w > 0 ==> ls[..w] in t
  {
    WinnerUpTo(t, ls, |ls|)
  }

  predicate Matched(t: Table, ls: Path) {
    Winner(t, ls) > 0
  }

  function Deciding(t: Table, ls: Path): Entry
    requires Matched(t, ls)
  {
    t[ls[..Winner(t, ls)]]
  }

  lemma WinnerStatus(t: Table, ls: Path, k: nat)
    requires k <= |ls|
    ensures var w := WinnerUpTo(t, ls, k);
      && (w > 0 <==> exists j :: 0 < j <= k && ls[..j] in t)
      && (w > 0 && t[ls[..w]].status == Allowed <==> exists j :: 0 < j <= k && EntryAt(t, ls, j, Allowed))
      && (w > 0 && t[ls[..w]].status == Blocked <==>
            (exists j :: 0 < j <= k && EntryAt(t, ls, j, Blocked)) && (forall j :: 0 < j <= k ==> !EntryAt(t, ls, j, Allowed)))
      && (w > 0 ==> forall j :: w < j <= k ==> !EntryAt(t, ls, j, t[ls[..w]].status))
  {
    var a := Deepest(t, ls, k, Allowed);
    var b := Deepest(t, ls, k, Blocked);
    var r := Deepest(t, ls, k, Review);
    if j :| 0 < j <= k && ls[..j] in t {
      assert EntryAt(t, ls, j, t[ls[..j]].status);
      match t[ls[..j]].status
      case Allowed => assert a > 0;
      case Blocked => assert b > 0;
      case Review => assert r > 0;
    }
  }

  // Every name under a blocked one is blocked, unless an ALLOWED entry lies on
  // its own path; and that is the only way out.
  lemma SubdomainsOfBlocked(t: Table, p: Path, ls: Path)
    requires p <= ls
    requires Matched(t, p) && Deciding(t, p).status == Blocked
    ensures Matched(t, ls)
    ensures Deciding(t, ls).status == Blocked <==> forall j :: 0 < j <= |ls| ==> !EntryAt(t, ls, j, Allowed)
    ensures Deciding(t, ls).status != Blocked ==> Deciding(t, ls).status == Allowed
  {
    WinnerStatus(t, p, |p|);
    WinnerStatus(t, ls, |ls|);
    var w := Winner(t, p);
    assert ls[..w] == p[..w];
    assert EntryAt(t, ls, w, Blocked);
  }

  // The verdict sees only the statuses: bumping a hit counter, a timestamp or
  // even a TTL leaves it alone.
  predicate SameStatuses(t: Table, u: Table) {
    t.Keys == u.Keys && forall p :: p in t ==> u[p].status == t[p].status
  }

  lemma {:induction false} DeepestSeesStatuses(t: Table, u: Table, ls: Path, k: nat, s: Status)
    requires SameStatuses(t, u) && k <= |ls|
    ensures Deepest(t, ls, k, s) == Deepest(u, ls, k, s)
  {
    if k > 0 { DeepestSeesStatuses(t, u, ls, k - 1, s); }
  }

  lemma VerdictSeesStatuses(t: Table, u: Table, ls: Path)
    requires SameStatuses(t, u)
    ensures Winner(t, ls) == Winner(u, ls)
  {
    DeepestSeesStatuses(t, u, ls, |ls|, Allowed);
    DeepestSeesStatuses(t, u, ls, |ls|, Blocked);
    DeepestSeesStatuses(t, u, ls, |ls|, Review);
  }

  // What a lookup does to the table: the winner's counter, a 32-bit word, goes
  // up by one and its last_seen is set.
  const WORD: nat := 0x1_0000_0000

  function Touched(e: Entry, seen: nat): Entry {
    e.(hitCount := (e.hitCount + 1) % WORD, lastSeen := seen)
  }

  function Touch(t: Table, ls: Path, seen: nat): Table {
    var w := Winner(t, ls);
    if w == 0 then t else t[ls[..w] := Touched(t[ls[..w]], seen)]
  }

  // What radix_lookup hands back: the deciding entry, already counted.
  function LookupResult(t: Table, ls: Path, seen: nat): Option<Entry> {
    if Matched(t, ls) then Some(Touched(Deciding(t, ls), seen)) else None
  }

  // A lookup of a matched path counts once, on the deepest of its entries with the
  // winning status, and hands that entry back; a lookup of any other path changes
  // nothing.
  lemma TouchCounts(t: Table, ls: Path, seen: nat)
    ensures (forall j :: 0 < j <= |ls| ==> ls[..j] !in t) ==> Touch(t, ls, seen) == t && LookupResult(t, ls, seen) == None
    ensures Matched(t, ls) ==>
      var p := ls[..Winner(t, ls)];
      var u := Touch(t, ls, seen);
      && p in t && u.Keys == t.Keys && LookupResult(t, ls, seen) == Some(u[p])
      && u[p] == t[p].(hitCount := u[p].hitCount, lastSeen := seen)
      && (t[p].hitCount < 0xFFFF_FFFF ==> u[p].hitCount == t[p].hitCount + 1)
      && (t[p].hitCount == 0xFFFF_FFFF ==> u[p].hitCount == 0)
      && forall q :: q in t && q != p ==> u[q] == t[q]
  {
    WinnerStatus(t, ls, |ls|);
  }

  // No lookup changes any later verdict.
  lemma LookupKeepsVerdicts(t: Table, ls: Path, seen: nat, other: Path)
    ensures var u := Touch(t, ls, seen);
      && Winner(u, other) == Winner(t, other)
      && (Matched(t, other) ==>
            && Deciding(u, other).status == Deciding(t, other).status
            && Deciding(u, other).ttl == Deciding(t, other).ttl)
  {
    VerdictSeesStatuses(t, Touch(t, ls, seen), other);
  }

  // Nothing from depth i on: the winner is known.
  lemma {:induction false} DeepestStops(t: Table, ls: Path, i: nat, k: nat, s: Status)
    requires i <= k <= |ls|
    requires forall j :: i < j <= k ==> ls[..j] !in t
    ensures Deepest(t, ls, k, s) == Deepest(t, ls, i, s)
  {
    if i < k { DeepestStops(t, ls, i, k - 1, s); }
  }

  lemma WinnerStops(t: Table, ls: Path, i: nat)
    requires i <= |ls|
    requires forall j :: i < j <= |ls| ==> ls[..j] !in t
    ensures Winner(t, ls) == WinnerUpTo(t, ls, i)
  {
    DeepestStops(t, ls, i, |ls|, Allowed);
    DeepestStops(t, ls, i, |ls|, Blocked);
    DeepestStops(t, ls, i, |ls|, Review);
  }
}
