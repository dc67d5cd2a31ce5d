// optimize_blocklist of scripts/clean_blocklist.py: entries with a common parent
// are rolled up into the parent, and what the list blocks stays blocked.
module Rollup {
  import opened Prelude
  import opened Names
  import opened Forest
  import opened Verdict
  import opened BlockFile

  // A candidate: the parent and the entries below it.
  datatype Rollup = Rollup(parent: Domain, children: seq<Domain>)

  // ------------------------------------------------------------------
  // Parents
  // ------------------------------------------------------------------

  // get_ancestor_candidates: every proper suffix of at least two labels, longest
  // first.
  function Candidates(d: Domain): (r: seq<Domain>)
    ensures forall a :: a in r <==> Below(d, a)
  {
    if |d| <= 2 then []
    else
      var r := seq(|d| - 2, i requires 0 <= i < |d| - 2 => d[i + 1..]);
      assert forall a :: Below(d, a) ==> r[|d| - |a| - 1] == a;
      r
  }

  predicate Below(d: Domain, a: Domain) {
    2 <= |a| < |d| && d[|d| - |a|..] == a
  }

  // len() of the dotted name.
  function TextLength(d: Domain): nat {
    if d == [] then 0 else |d[0]| + (if |d| > 1 then 1 else 0) + TextLength(d[1..])
  }

  // ------------------------------------------------------------------
  // What a list blocks
  // ------------------------------------------------------------------

  // Where the tree stores the domain.
  function PathOfDomain(d: Domain): Path {
    Reverse(NonEmpty(d))
  }

  // The tree blocks p and everything under it, given an entry for d.
  predicate Blocks(d: Domain, p: Path) {
    PathOfDomain(d) != [] && PathOfDomain(d) <= p
  }

  ghost predicate ListBlocks(rows: seq<Row>, p: Path) {
    exists i :: 0 <= i < |rows| && Blocks(rows[i].domain, p)
  }

  lemma {:induction false} NonEmptySuffix(d: Domain, i: nat)
    requires i <= |d|
    ensures |NonEmpty(d[i..])| <= |NonEmpty(d)| && NonEmpty(d)[|NonEmpty(d)| - |NonEmpty(d[i..])|..] == NonEmpty(d[i..])
  {
    if i > 0 {
      NonEmptySuffix(d[1..], i - 1);
      assert d[1..][i - 1..] == d[i..];
    } else {
      assert d[i..] == d;
    }
  }

  lemma ReverseSuffix(s: seq<Label>, t: seq<Label>)
    requires |t| <= |s| && s[|s| - |t|..] == t
    ensures Reverse(t) <= Reverse(s)
  {
    forall i | 0 <= i < |t| ensures Reverse(t)[i] == Reverse(s)[i] {
      assert t[|t| - 1 - i] == s[|s| - |t|..][|t| - 1 - i];
    }
  }

  // An entry's parent blocks whatever the entry blocks, if it has a label at all.
  lemma ParentBlocks(d: Domain, a: Domain, p: Path)
    requires Below(d, a) && NonEmpty(a) != [] && Blocks(d, p)
    ensures Blocks(a, p)
  {
    NonEmptySuffix(d, |d| - |a|);
    ReverseSuffix(NonEmpty(d), NonEmpty(a));
  }

  // ------------------------------------------------------------------
  // Reading the list
  // ------------------------------------------------------------------

  // The entries below a, line by line: a repeated line counts again.
  function KidsOf(rows: seq<Row>, a: Domain): seq<Domain> {
    if rows == [] then []
    else KidsOf(Front(rows), a) + (if Below(Last(rows).domain, a) then [Last(rows).domain] else [])
  }

  type Kids = map<Domain, seq<Domain>>

  function Get(kids: Kids, a: Domain): seq<Domain> {
    if a in kids then kids[a] else []
  }

  // The first `done` parents of d have been noted.
  ghost predicate Noted(kids: Kids, kids': Kids, d: Domain, done: seq<Domain>, protected: set<Domain>) {
    forall a {:trigger Get(kids', a)} ::
      && (a in kids' <==> a in kids || (a in done && a !in protected))
      && Get(kids', a) == Get(kids, a) + (if a in done && a !in protected then [d] else [])
  }

  lemma NotedNext(kids: Kids, kids': Kids, d: Domain, done: seq<Domain>, a: Domain, protected: set<Domain>)
    requires Noted(kids, kids', d, done, protected) && a !in done
    ensures Noted(kids, if a in protected then kids' else kids'[a := Get(kids', a) + [d]], d, done + [a], protected)
  {
    var kids2 := if a in protected then kids' else kids'[a := Get(kids', a) + [d]];
    forall b
      ensures b in kids2 <==> b in kids || (b in done + [a] && b !in protected)
      ensures Get(kids2, b) == Get(kids, b) + (if b in done + [a] && b !in protected then [d] else [])
    {
      assert Get(kids', b) == Get(kids, b) + (if b in done && b !in protected then [d] else []);
      assert b in done + [a] <==> b in done || b == a;
    }
  }

  lemma CandidatesDistinct(d: Domain, k: nat)
    requires k < |Candidates(d)|
    ensures Candidates(d)[k] !in Candidates(d)[..k]
  {
    var r := Candidates(d);
    forall j: nat | j < k ensures r[..k][j] != r[k] {
      assert |r[j]| != |r[k]|;
    }
  }

  // ancestor_map[ancestor].append(domain) for every unprotected parent.
  method NoteParents(d: Domain, protected: set<Domain>, kids: Kids, parents: seq<Domain>) returns (kids': Kids, parents': seq<Domain>)
    requires Distinct(parents) && forall a :: a in parents <==> a in kids
    ensures Distinct(parents') && forall a :: a in parents' <==> a in kids'
    ensures Noted(kids, kids', d, Candidates(d), protected)
  {
    hide Candidates;
    var cands := Candidates(d);
    kids', parents' := kids, parents;
    for k := 0 to |cands|
      invariant Distinct(parents') && forall a :: a in parents' <==> a in kids'
      invariant Noted(kids, kids', d, cands[..k], protected)
    {
      var a := cands[k];
      CandidatesDistinct(d, k);
      NotedNext(kids, kids', d, cands[..k], a, protected);
      assert cands[..k + 1] == cands[..k] + [a];
      if a !in protected {
        if a !in kids' { parents' := parents' + [a]; }
        kids' := kids'[a := Get(kids', a) + [d]];
      }
    }
    assert cands[..|cands|] == cands;
  }

  // The dictionaries after reading the rows: every domain once, with its last
  // line; and every unprotected parent with the entries below it.
  ghost predicate LinesRead(rows: seq<Row>, order: seq<Domain>, last: map<Domain, Row>) {
    && Distinct(order)
    && (forall d :: d in order <==> d in last)
    && (forall d :: d in last <==> exists i :: 0 <= i < |rows| && rows[i].domain == d)
    && (forall d :: d in last ==> IsLastLine(rows, d, last[d]))
  }

  ghost predicate IsLastLine(rows: seq<Row>, d: Domain, row: Row) {
    exists i :: 0 <= i < |rows| && rows[i] == row && row.domain == d && forall j :: i < j < |rows| ==> rows[j].domain != d
  }

  ghost predicate KidsRead(rows: seq<Row>, protected: set<Domain>, kids: Kids) {
    forall a {:trigger Get(kids, a)} ::
      && (a in kids ==> a !in protected && Get(kids, a) != [])
      && (a !in protected ==> Get(kids, a) == KidsOf(rows, a))
  }

  lemma LinesNext(rows: seq<Row>, row: Row, order: seq<Domain>, last: map<Domain, Row>)
    requires LinesRead(rows, order, last)
    ensures LinesRead(rows + [row], if row.domain in last then order else order + [row.domain], last[row.domain := row])
  {
    var rows', last' := rows + [row], last[row.domain := row];
    forall d ensures d in last' <==> exists i :: 0 <= i < |rows'| && rows'[i].domain == d {
      if d == row.domain { assert rows'[|rows|].domain == d; }
      if d in last {
        var i :| 0 <= i < |rows| && rows[i].domain == d;
        assert rows'[i].domain == d;
      }
    }
    forall d | d in last' ensures IsLastLine(rows', d, last'[d]) {
      if d == row.domain {
        assert rows'[|rows|] == row;
      } else {
        assert IsLastLine(rows, d, last[d]);
        var i :| 0 <= i < |rows| && rows[i] == last[d] && last[d].domain == d && forall j :: i < j < |rows| ==> rows[j].domain != d;
        assert rows'[i] == last[d];
      }
    }
  }

  lemma KidsNext(rows: seq<Row>, row: Row, protected: set<Domain>, kids: Kids, kids': Kids)
    requires KidsRead(rows, protected, kids) && Noted(kids, kids', row.domain, Candidates(row.domain), protected)
    ensures KidsRead(rows + [row], protected, kids')
  {
    assert Front(rows + [row]) == rows && Last(rows + [row]) == row;
    forall a
      ensures a in kids' ==> a !in protected && Get(kids', a) != []
      ensures a !in protected ==> Get(kids', a) == KidsOf(rows + [row], a)
    {
      assert a in kids ==> Get(kids, a) != [];
      assert Get(kids', a) == Get(kids, a) + (if a in Candidates(row.domain) && a !in protected then [row.domain] else []);
    }
  }

  // The dictionaries after the lines before n.
  ghost predicate ReadTo(lines: seq<Line>, n: nat, protected: set<Domain>, order: seq<Domain>, last: map<Domain, Row>, kids: Kids)
    requires n <= |lines|
  {
    LinesRead(RowsOf(lines[..n]), order, last) && KidsRead(RowsOf(lines[..n]), protected, kids)
  }

  lemma ReadNext(lines: seq<Line>, n: nat, protected: set<Domain>, order: seq<Domain>, last: map<Domain, Row>, kids: Kids, kids': Kids)
    requires n < |lines| && ReadTo(lines, n, protected, order, last, kids)
    requires match Parse(lines[n]) case None => kids' == kids case Some(row) => Noted(kids, kids', row.domain, Candidates(row.domain), protected)
    ensures match Parse(lines[n])
      case None => ReadTo(lines, n + 1, protected, order, last, kids')
      case Some(row) => ReadTo(lines, n + 1, protected, if row.domain in last then order else order + [row.domain], last[row.domain := row], kids')
  {
    assert lines[..n + 1] == lines[..n] + [lines[n]];
    assert Front(lines[..n + 1]) == lines[..n];
    if Parse(lines[n]).Some? {
      LinesNext(RowsOf(lines[..n]), Parse(lines[n]).value, order, last);
      KidsNext(RowsOf(lines[..n]), Parse(lines[n]).value, protected, kids, kids');
    }
  }

  method ReadList(lines: seq<Line>, protected: set<Domain>) returns (order: seq<Domain>, last: map<Domain, Row>, parents: seq<Domain>, kids: Kids)
    ensures LinesRead(RowsOf(lines), order, last)
    ensures KidsRead(RowsOf(lines), protected, kids)
    ensures Distinct(parents) && forall a :: a in parents <==> a in kids
  {
    order, last, parents, kids := [], map[], [], map[];
    for n := 0 to |lines|
      invariant ReadTo(lines, n, protected, order, last, kids)
      invariant Distinct(parents) && forall a :: a in parents <==> a in kids
    {
      hide ReadTo;
      var parsed := Parse(lines[n]);
      if parsed == None {
        ReadNext(lines, n, protected, order, last, kids, kids);
        continue;
      }
      var row := parsed.value;
      var kids', parents' := NoteParents(row.domain, protected, kids, parents);
      ReadNext(lines, n, protected, order, last, kids, kids');
      if row.domain !in last { order := order + [row.domain]; }
      last := last[row.domain := row];
      kids, parents := kids', parents';
    }
    assert lines[..|lines|] == lines;
  }

  // ------------------------------------------------------------------
  // Choosing candidates
  // ------------------------------------------------------------------

  // sorted(..., key=len, reverse=True), which keeps the order of equal lengths.
  function SortedInto(a: Domain, s: seq<Domain>): seq<Domain> {
    if s == [] then [a]
    else if TextLength(s[0]) > TextLength(a) then [s[0]] + SortedInto(a, s[1..])
    else [a] + s
  }

  function LongestFirst(s: seq<Domain>): seq<Domain> {
    if s == [] then [] else SortedInto(s[0], LongestFirst(s[1..]))
  }

  lemma {:induction false} SortedIntoElements(a: Domain, s: seq<Domain>)
    ensures forall x :: x in SortedInto(a, s) <==> x == a || x in s
  {
    if s != [] && TextLength(s[0]) > TextLength(a) {
      SortedIntoElements(a, s[1..]);
      assert s == [s[0]] + s[1..];
    }
  }

  lemma {:induction false} LongestFirstElements(s: seq<Domain>)
    ensures forall x :: x in LongestFirst(s) <==> x in s
  {
    if s != [] {
      LongestFirstElements(s[1..]);
      SortedIntoElements(s[0], LongestFirst(s[1..]));
      assert s == [s[0]] + s[1..];
    }
  }

  // No parent comes before a longer one.
  ghost predicate Ordered(s: seq<Domain>) {
    forall i, j :: 0 <= i < j < |s| ==> |Join(s[i])| >= |Join(s[j])|
  }

  // The domains whose dotted names have n bytes, in order.
  function OfLength(s: seq<Domain>, n: nat): seq<Domain> {
    if s == [] then []
    else (if |Join(s[0])| == n then [s[0]] else []) + OfLength(s[1..], n)
  }

  lemma {:induction false} TextSnoc(d: Domain, l: Label)
    ensures TextLength(d + [l]) == TextLength(d) + (if d == [] then 0 else 1) + |l|
  {
    var all := d + [l];
    if d == [] {
      assert all[1..] == [];
    } else {
      assert all[1..] == d[1..] + [l];
      TextSnoc(d[1..], l);
    }
  }

  lemma {:induction false} TextLengthIs(d: Domain)
    ensures TextLength(d) == |Join(d)|
  {
    if d != [] {
      var front, last := d[..|d| - 1], d[|d| - 1];
      assert d == front + [last];
      TextSnoc(front, last);
      TextLengthIs(front);
    }
  }

  ghost predicate NoneLonger(a: Domain, s: seq<Domain>) {
    forall x :: x in s ==> |Join(a)| >= |Join(x)|
  }

  lemma OrderedTail(s: seq<Domain>)
    requires s != [] && Ordered(s)
    ensures Ordered(s[1..]) && NoneLonger(s[0], s[1..])
  {
    forall x | x in s[1..] ensures |Join(s[0])| >= |Join(x)| {
      var k :| 0 <= k < |s[1..]| && s[1..][k] == x;
      assert s[k + 1] == x;
    }
    forall i, j | 0 <= i < j < |s| - 1 ensures |Join(s[1..][i])| >= |Join(s[1..][j])| {
      assert s[1..][i] == s[i + 1] && s[1..][j] == s[j + 1];
    }
  }

  lemma {:induction false} SortedIntoOrdered(a: Domain, s: seq<Domain>)
    requires Ordered(s)
    ensures Ordered(SortedInto(a, s))
  {
    TextLengthIs(a);
    if s != [] {
      TextLengthIs(s[0]);
      OrderedTail(s);
      if TextLength(s[0]) > TextLength(a) {
        SortedIntoOrdered(a, s[1..]);
        SortedIntoElements(a, s[1..]);
        OrderedCons(s[0], SortedInto(a, s[1..]));
      } else {
        assert forall x :: x in s ==> x == s[0] || x in s[1..];
        OrderedCons(a, s);
      }
    }
  }

  lemma OfLengthCons(a: Domain, s: seq<Domain>, n: nat)
    ensures OfLength([a] + s, n) == (if |Join(a)| == n then [a] else []) + OfLength(s, n)
  {
    assert ([a] + s)[1..] == s;
  }

  lemma {:induction false} SortedIntoStable(a: Domain, s: seq<Domain>, n: nat)
    requires Ordered(s)
    ensures OfLength(SortedInto(a, s), n) == (if |Join(a)| == n then [a] else []) + OfLength(s, n)
  {
    hide OfLength, Ordered, Join, TextLength;
    TextLengthIs(a);
    if s == [] {
      OfLengthCons(a, [], n);
      assert [a] + [] == [a];
    } else {
      var x, rest := s[0], s[1..];
      TextLengthIs(x);
      if TextLength(x) > TextLength(a) {
        OrderedTail(s);
        SortedIntoStable(a, rest, n);
        OfLengthCons(x, SortedInto(a, rest), n);
        OfLengthCons(x, rest, n);
        assert s == [x] + rest;
      } else {
        OfLengthCons(a, s, n);
      }
    }
  }

  lemma OrderedCons(a: Domain, s: seq<Domain>)
    requires Ordered(s) && NoneLonger(a, s)
    ensures Ordered([a] + s)
  {
    var r := [a] + s;
    forall i, j | 0 <= i < j < |r| ensures |Join(r[i])| >= |Join(r[j])| {
      assert r[j] == s[j - 1] && s[j - 1] in s;
      if i > 0 { assert r[i] == s[i - 1]; }
    }
  }

  // Longest first, and equal lengths as they were.
  lemma {:induction false} LongestFirstOrdered(s: seq<Domain>, n: nat)
    ensures Ordered(LongestFirst(s)) && OfLength(LongestFirst(s), n) == OfLength(s, n)
  {
    if s != [] {
      LongestFirstOrdered(s[1..], n);
      SortedIntoOrdered(s[0], LongestFirst(s[1..]));
      SortedIntoStable(s[0], LongestFirst(s[1..]), n);
    }
  }

  // [child for child in s if child in active].
  function Still(s: seq<Domain>, active: seq<Domain>): (r: seq<Domain>)
    ensures forall x :: x in r <==> x in s && x in active
  {
    if s == [] then []
    else if Last(s) in active then Still(Front(s), active) + [Last(s)]
    else Still(Front(s), active)
  }

  // The dictionary without the popped keys.
  function Gone(active: seq<Domain>, taken: seq<Domain>): (r: seq<Domain>)
    ensures forall x :: x in r <==> x in active && x !in taken
    ensures Distinct(active) ==> Distinct(r)
  {
    if active == [] then []
    else
      var r := Gone(Front(active), taken);
      assert active == Front(active) + [Last(active)];
      if Last(active) in taken then r else r + [Last(active)]
  }

  lemma {:induction false} StillShrinks(s: seq<Domain>, active: seq<Domain>, less: seq<Domain>)
    requires forall x :: x in less ==> x in active
    ensures |Still(s, less)| <= |Still(s, active)|
  {
    if s != [] { StillShrinks(Front(s), active, less); }
  }

  // What has been chosen so far: candidates with an unprotected parent and three
  // or more lines below it; every domain either still active or in exactly one
  // candidate.
  ghost predicate CandidateOk(r: Rollup, protected: set<Domain>) {
    && r.parent !in protected
    && |r.children| >= 3
    && forall c :: c in r.children ==> Below(c, r.parent)
  }

  ghost predicate Taken(rollups: seq<Rollup>, d: Domain) {
    exists k :: 0 <= k < |rollups| && d in rollups[k].children
  }

  ghost predicate Placed(all: seq<Domain>, active: seq<Domain>, rollups: seq<Rollup>, d: Domain) {
    d in all <==> d in active || Taken(rollups, d)
  }

  ghost predicate Split(all: seq<Domain>, active: seq<Domain>, rollups: seq<Rollup>) {
    && (forall d {:trigger Placed(all, active, rollups, d)} :: Placed(all, active, rollups, d))
    && (forall k, d :: 0 <= k < |rollups| && d in rollups[k].children ==> d !in active)
    && (forall j, k, d :: 0 <= j < |rollups| && 0 <= k < |rollups| && d in rollups[j].children && d in rollups[k].children ==> j == k)
  }

  // Fewer than three lines below a are still active.
  ghost predicate Spent(kids: Kids, a: Domain, active: seq<Domain>) {
    |Still(Get(kids, a), active)| < 3
  }

  lemma SplitNext(all: seq<Domain>, active: seq<Domain>, rollups: seq<Rollup>, r: Rollup)
    requires Split(all, active, rollups) && forall c :: c in r.children ==> c in active
    ensures Split(all, Gone(active, r.children), rollups + [r])
  {
    var rollups', active' := rollups + [r], Gone(active, r.children);
    forall d ensures Placed(all, active', rollups', d) {
      assert Placed(all, active, rollups, d);
      if Taken(rollups, d) {
        var k :| 0 <= k < |rollups| && d in rollups[k].children;
        assert d in rollups'[k].children;
      }
      if d in r.children { assert d in rollups'[|rollups|].children; }
      assert Taken(rollups', d) <==> Taken(rollups, d) || d in r.children;
    }
  }

  // The candidates taken from the sorted parents, and what is left active.
  function Choose(sorted: seq<Domain>, kids: Kids, order: seq<Domain>): (seq<Rollup>, seq<Domain>) {
    if sorted == [] then ([], order)
    else
      var (rollups, active) := Choose(Front(sorted), kids, order);
      var children := Still(Get(kids, Last(sorted)), active);
      if |children| >= 3 then (rollups + [Rollup(Last(sorted), children)], Gone(active, children))
      else (rollups, active)
  }

  method ChooseRollups(order: seq<Domain>, parents: seq<Domain>, kids: Kids) returns (rollups: seq<Rollup>, active: seq<Domain>)
    ensures (rollups, active) == Choose(LongestFirst(parents), kids, order)
  {
    var sorted := LongestFirst(parents);
    rollups, active := [], order;
    for k := 0 to |sorted|
      invariant (rollups, active) == Choose(sorted[..k], kids, order)
    {
      var parent := sorted[k];
      var children := Still(Get(kids, parent), active);
      assert Front(sorted[..k + 1]) == sorted[..k];
      if |children| >= 3 {
        rollups := rollups + [Rollup(parent, children)];
        active := Gone(active, children);
      }
    }
    assert sorted[..|sorted|] == sorted;
  }

  function Parents(rollups: seq<Rollup>): (s: seq<Domain>)
    ensures |s| == |rollups| && forall k :: 0 <= k < |s| ==> s[k] == rollups[k].parent
  {
    seq(|rollups|, k requires 0 <= k < |rollups| => rollups[k].parent)
  }

  lemma OrderedFront(s: seq<Domain>)
    requires s != [] && Ordered(s)
    ensures Ordered(Front(s)) && forall x :: x in Front(s) ==> |Join(x)| >= |Join(Last(s))|
  {
    forall x | x in Front(s) ensures |Join(x)| >= |Join(Last(s))| {
      var i :| 0 <= i < |Front(s)| && Front(s)[i] == x;
      assert s[i] == x && s[|s| - 1] == Last(s);
    }
    forall i, j | 0 <= i < j < |s| - 1 ensures |Join(Front(s)[i])| >= |Join(Front(s)[j])| {
      assert Front(s)[i] == s[i] && Front(s)[j] == s[j];
    }
  }

  // Candidates come in the order of their parents.
  lemma {:induction false} ChooseOrdered(sorted: seq<Domain>, kids: Kids, order: seq<Domain>)
    requires Ordered(sorted)
    ensures var rollups := Choose(sorted, kids, order).0;
      Ordered(Parents(rollups)) && forall k :: 0 <= k < |rollups| ==> rollups[k].parent in sorted
  {
    if sorted != [] {
      hide Ordered;
      var front, last := Front(sorted), Last(sorted);
      OrderedFront(sorted);
      ChooseOrdered(front, kids, order);
      assert sorted == front + [last];
      var rollups, more := Choose(front, kids, order).0, Choose(sorted, kids, order).0;
      OrderedSnoc(Parents(rollups), last);
      assert |more| > |rollups| ==> Parents(more) == Parents(rollups) + [last];
    } else {
      assert Parents([]) == [];
    }
  }

  lemma OrderedSnoc(s: seq<Domain>, a: Domain)
    requires Ordered(s) && forall j :: 0 <= j < |s| ==> |Join(s[j])| >= |Join(a)|
    ensures Ordered(s + [a])
  {
    var r := s + [a];
    forall i, j | 0 <= i < j < |r| ensures |Join(r[i])| >= |Join(r[j])| {
      assert r[i] == s[i];
      if j < |s| { assert r[j] == s[j]; }
    }
  }

  // The children are lines below the parent that were active.
  ghost predicate FromKids(r: Rollup, kids: Kids) {
    exists active: seq<Domain> :: r.children == Still(Get(kids, r.parent), active)
  }

  ghost predicate Chosen(order: seq<Domain>, sorted: seq<Domain>, kids: Kids, protected: set<Domain>, rollups: seq<Rollup>, active: seq<Domain>) {
    && Distinct(active) && Split(order, active, rollups)
    && (forall k :: 0 <= k < |rollups| ==> CandidateOk(rollups[k], protected) && FromKids(rollups[k], kids))
    && (forall a {:trigger Spent(kids, a, active)} :: a in sorted ==> Spent(kids, a, active))
  }

  lemma ChooseNext(rows: seq<Row>, protected: set<Domain>, kids: Kids, order: seq<Domain>, sorted: seq<Domain>, parent: Domain, rollups: seq<Rollup>, active: seq<Domain>)
    requires KidsRead(rows, protected, kids) && parent in kids
    requires Chosen(order, sorted, kids, protected, rollups, active)
    ensures var children := Still(Get(kids, parent), active);
      Chosen(order, sorted + [parent], kids, protected,
             if |children| >= 3 then rollups + [Rollup(parent, children)] else rollups,
             if |children| >= 3 then Gone(active, children) else active)
  {
    hide Split, CandidateOk, Spent, KidsRead, Still, Gone, Get;
    var children := Still(Get(kids, parent), active);
    if |children| >= 3 {
      ChildrenOk(rows, protected, kids, parent, active);
      SplitNext(order, active, rollups, Rollup(parent, children));
      assert FromKids(Rollup(parent, children), kids);
    }
    SpentNext(kids, sorted, parent, active);
  }

  lemma {:induction false} ChooseOk(rows: seq<Row>, protected: set<Domain>, kids: Kids, order: seq<Domain>, sorted: seq<Domain>)
    requires KidsRead(rows, protected, kids) && Distinct(order) && forall a :: a in sorted ==> a in kids
    ensures var (rollups, active) := Choose(sorted, kids, order); Chosen(order, sorted, kids, protected, rollups, active)
  {
    if sorted == [] {
      assert forall d :: Placed(order, order, [], d);
    } else {
      hide Chosen, KidsRead;
      assert sorted == Front(sorted) + [Last(sorted)];
      ChooseOk(rows, protected, kids, order, Front(sorted));
      var (rollups, active) := Choose(Front(sorted), kids, order);
      ChooseNext(rows, protected, kids, order, Front(sorted), Last(sorted), rollups, active);
    }
  }

  lemma {:induction false} KidsBelow(rows: seq<Row>, a: Domain)
    ensures forall c :: c in KidsOf(rows, a) ==> Below(c, a)
  {
    if rows != [] { KidsBelow(Front(rows), a); }
  }

  lemma ChildrenOk(rows: seq<Row>, protected: set<Domain>, kids: Kids, parent: Domain, active: seq<Domain>)
    requires KidsRead(rows, protected, kids) && parent in kids && |Still(Get(kids, parent), active)| >= 3
    ensures CandidateOk(Rollup(parent, Still(Get(kids, parent), active)), protected)
  {
    KidsBelow(rows, parent);
  }

  lemma SpentNext(kids: Kids, sorted: seq<Domain>, parent: Domain, was: seq<Domain>)
    requires forall a {:trigger Spent(kids, a, was)} :: a in sorted ==> Spent(kids, a, was)
    ensures var children := Still(Get(kids, parent), was);
      var active := if |children| >= 3 then Gone(was, children) else was;
      forall a {:trigger Spent(kids, a, active)} :: a in sorted + [parent] ==> Spent(kids, a, active)
  {
    var children := Still(Get(kids, parent), was);
    var active := if |children| >= 3 then Gone(was, children) else was;
    forall a | a in sorted + [parent] ensures Spent(kids, a, active) {
      if a == parent {
        if |children| >= 3 { NoneStill(Get(kids, a), was); }
      } else {
        assert Spent(kids, a, was);
        StillShrinks(Get(kids, a), was, active);
      }
    }
  }

  lemma NoneStill(s: seq<Domain>, active: seq<Domain>)
    ensures Still(s, Gone(active, Still(s, active))) == []
  {
    var r := Still(s, Gone(active, Still(s, active)));
    HasElement(r);
  }

  lemma HasElement(r: seq<Domain>)
    ensures r != [] ==> exists x :: x in r
  {
    if r != [] { assert r[0] in r; }
  }

  // ------------------------------------------------------------------
  // Writing the list
  // ------------------------------------------------------------------

  const DEFAULT_TTL: nat := 60

  // B, S, 1 and the note of a parent's line.
  const BLOCK_COLUMN: Column := [66]
  const STATIC_COLUMN: Column := [83]
  const ONE_COLUMN: Column := [49]
  const NOTE_COLUMN: Column :=
    [99, 111, 110, 115, 111, 108, 105, 100, 97, 116, 101, 100, 32, 108, 105, 110, 101, 97, 103, 101, 32, 114, 111, 108, 108, 117, 112]

  function TtlOf(row: Row): nat {
    if row.ttl.Some? then row.ttl.value else 0
  }

  function MaxTtl(last: map<Domain, Row>, children: seq<Domain>): (m: nat)
    requires forall c :: c in children ==> c in last
    ensures forall c :: c in children ==> TtlOf(last[c]) <= m
    ensures m == 0 || exists c :: c in children && TtlOf(last[c]) == m
  {
    if children == [] then 0
    else
      assert children == Front(children) + [Last(children)];
      MaxNat(MaxTtl(last, Front(children)), TtlOf(last[Last(children)]))
  }

  // The largest TTL one of the children had, if any had one.
  function ParentTtl(last: map<Domain, Row>, r: Rollup): (ttl: nat)
    requires forall c :: c in r.children ==> c in last
    ensures forall c :: c in r.children && last[c].ttl.Some? ==> last[c].ttl.value <= ttl
    ensures ttl == 60 || exists c :: c in r.children && last[c].ttl == Some(ttl)
    ensures (exists c :: c in r.children && last[c].ttl.Some? && last[c].ttl.value > 0) ==> exists c :: c in r.children && last[c].ttl == Some(ttl)
  {
    var ttl := MaxTtl(last, r.children);
    if ttl == 0 then DEFAULT_TTL else ttl
  }

  // The line written for an accepted parent at a time.
  function ParentLine(parent: Domain, ttl: nat, time: nat): Line {
    Line([BLOCK_COLUMN, Join(parent), STATIC_COLUMN, Decimal(time), Decimal(time), ONE_COLUMN, Decimal(ttl), NOTE_COLUMN], true)
  }

  function ParentRow(last: map<Domain, Row>, r: Rollup, time: nat): Row
    requires forall c :: c in r.children ==> c in last
  {
    Row(r.parent, Some(ParentTtl(last, r)), ParentLine(r.parent, ParentTtl(last, r), time))
  }

  // The line reads back as the parent with that TTL.
  lemma ParentLineParses(parent: Domain, ttl: nat, time: nat)
    requires Plain(parent)
    ensures Parse(ParentLine(parent, ttl, time)) == Some(Row(parent, Some(ttl), ParentLine(parent, ttl, time)))
  {
    DomainOfJoin(parent);
    ValueOfDecimal(ttl);
  }

  function Kept(last: map<Domain, Row>, ds: seq<Domain>): (rows: seq<Row>)
    requires forall d :: d in ds ==> d in last
    ensures |rows| == |ds| && forall i :: 0 <= i < |ds| ==> rows[i] == last[ds[i]]
  {
    seq(|ds|, i requires 0 <= i < |ds| => last[ds[i]])
  }

  ghost predicate Known(last: map<Domain, Row>, active: seq<Domain>, rollups: seq<Rollup>) {
    && (forall d :: d in active ==> d in last)
    && (forall k, c :: 0 <= k < |rollups| && c in rollups[k].children ==> c in last)
  }

  // What an answered candidate adds: its parent, or its children again.
  function More(last: map<Domain, Row>, r: Rollup, answer: Domain -> bool, clock: Domain -> nat): seq<Row>
    requires forall c :: c in r.children ==> c in last
  {
    if answer(r.parent) then [ParentRow(last, r, clock(r.parent))] else Kept(last, r.children)
  }

  // The lines written: the untouched ones, then what each candidate adds.
  ghost function Written(last: map<Domain, Row>, active: seq<Domain>, rollups: seq<Rollup>, answer: Domain -> bool, clock: Domain -> nat): seq<Row>
    requires Known(last, active, rollups)
  {
    if rollups == [] then Kept(last, active)
    else Written(last, active, Front(rollups), answer, clock) + More(last, Last(rollups), answer, clock)
  }

  method Rewrite(last: map<Domain, Row>, active: seq<Domain>, rollups: seq<Rollup>, answer: Domain -> bool, clock: Domain -> nat) returns (rows: seq<Row>)
    requires Known(last, active, rollups)
    ensures rows == Written(last, active, rollups, answer, clock)
  {
    rows := Kept(last, active);
    for k := 0 to |rollups|
      invariant rows == Written(last, active, rollups[..k], answer, clock)
    {
      assert Front(rollups[..k + 1]) == rollups[..k];
      rows := rows + More(last, rollups[k], answer, clock);
    }
    assert rollups[..|rollups|] == rollups;
  }

  // ------------------------------------------------------------------
  // What is written reads back
  // ------------------------------------------------------------------

  ghost predicate LastOk(last: map<Domain, Row>) {
    forall d :: d in last ==> last[d].domain == d && Plain(d) && Parse(last[d].line) == Some(last[d])
  }

  lemma LastIsOk(lines: seq<Line>, order: seq<Domain>, last: map<Domain, Row>)
    requires LinesRead(RowsOf(lines), order, last)
    ensures LastOk(last)
  {
    RowsFromLines(lines);
    forall d | d in last ensures last[d].domain == d && Plain(d) && Parse(last[d].line) == Some(last[d]) {
      assert IsLastLine(RowsOf(lines), d, last[d]);
    }
  }

  lemma ParentIsPlain(last: map<Domain, Row>, r: Rollup, protected: set<Domain>)
    requires LastOk(last) && CandidateOk(r, protected) && forall c :: c in r.children ==> c in last
    ensures Plain(r.parent)
  {
    var c := r.children[0];
    assert c in r.children;
    assert forall i :: 0 <= i < |r.parent| ==> r.parent[i] == c[|c| - |r.parent| + i];
  }

  lemma {:induction false} WrittenFromLines(last: map<Domain, Row>, active: seq<Domain>, rollups: seq<Rollup>, answer: Domain -> bool, clock: Domain -> nat, protected: set<Domain>)
    requires Known(last, active, rollups) && LastOk(last)
    requires forall k :: 0 <= k < |rollups| ==> CandidateOk(rollups[k], protected)
    ensures FromLines(Written(last, active, rollups, answer, clock))
  {
    if rollups != [] {
      hide CandidateOk, Parse, Plain;
      WrittenFromLines(last, active, Front(rollups), answer, clock, protected);
      var r := Last(rollups);
      if answer(r.parent) {
        ParentIsPlain(last, r, protected);
        ParentLineParses(r.parent, ParentTtl(last, r), clock(r.parent));
      }
    }
  }

  // ------------------------------------------------------------------
  // Coverage
  // ------------------------------------------------------------------

  ghost predicate AnyBlocks(ds: seq<Domain>, p: Path) {
    exists i :: 0 <= i < |ds| && Blocks(ds[i], p)
  }

  // What a candidate still blocks, given its answer.
  ghost predicate StillBlocks(r: Rollup, answer: Domain -> bool, p: Path) {
    if answer(r.parent) then Blocks(r.parent, p) else AnyBlocks(r.children, p)
  }

  ghost predicate KeptBlocks(active: seq<Domain>, rollups: seq<Rollup>, answer: Domain -> bool, p: Path) {
    AnyBlocks(active, p) || exists j :: 0 <= j < |rollups| && StillBlocks(rollups[j], answer, p)
  }

  lemma KeptRowsBlock(last: map<Domain, Row>, ds: seq<Domain>, p: Path)
    requires LastOk(last) && forall d :: d in ds ==> d in last
    ensures ListBlocks(Kept(last, ds), p) <==> AnyBlocks(ds, p)
  {
    var rows := Kept(last, ds);
    assert forall i :: 0 <= i < |ds| ==> rows[i].domain == ds[i];
  }

  lemma ConcatBlocks(xs: seq<Row>, ys: seq<Row>, p: Path)
    ensures ListBlocks(xs + ys, p) <==> ListBlocks(xs, p) || ListBlocks(ys, p)
  {
    if ListBlocks(xs, p) {
      var i :| 0 <= i < |xs| && Blocks(xs[i].domain, p);
      assert (xs + ys)[i] == xs[i];
    }
    if ListBlocks(ys, p) {
      var i :| 0 <= i < |ys| && Blocks(ys[i].domain, p);
      assert (xs + ys)[|xs| + i] == ys[i];
    }
  }

  lemma MoreBlocks(last: map<Domain, Row>, r: Rollup, answer: Domain -> bool, clock: Domain -> nat, p: Path)
    requires LastOk(last) && forall c :: c in r.children ==> c in last
    ensures ListBlocks(More(last, r, answer, clock), p) <==> StillBlocks(r, answer, p)
  {
    if answer(r.parent) {
      assert More(last, r, answer, clock)[0].domain == r.parent;
    } else {
      KeptRowsBlock(last, r.children, p);
    }
  }

  lemma KeptBlocksSnoc(active: seq<Domain>, rollups: seq<Rollup>, answer: Domain -> bool, p: Path)
    requires rollups != []
    ensures KeptBlocks(active, rollups, answer, p) <==> KeptBlocks(active, Front(rollups), answer, p) || StillBlocks(Last(rollups), answer, p)
  {
    assert rollups == Front(rollups) + [Last(rollups)];
    if exists j :: 0 <= j < |Front(rollups)| && StillBlocks(Front(rollups)[j], answer, p) {
      var j :| 0 <= j < |Front(rollups)| && StillBlocks(Front(rollups)[j], answer, p);
      assert rollups[j] == Front(rollups)[j];
    }
    if exists j :: 0 <= j < |rollups| && StillBlocks(rollups[j], answer, p) {
      var j :| 0 <= j < |rollups| && StillBlocks(rollups[j], answer, p);
      if j < |rollups| - 1 { assert rollups[j] == Front(rollups)[j]; }
    }
  }

  lemma {:induction false} WrittenBlocks(last: map<Domain, Row>, active: seq<Domain>, rollups: seq<Rollup>, answer: Domain -> bool, clock: Domain -> nat, p: Path)
    requires Known(last, active, rollups) && LastOk(last)
    ensures ListBlocks(Written(last, active, rollups, answer, clock), p) <==> KeptBlocks(active, rollups, answer, p)
  {
    if rollups == [] {
      KeptRowsBlock(last, active, p);
    } else {
      hide ListBlocks, KeptBlocks, StillBlocks, LastOk, More;
      WrittenBlocks(last, active, Front(rollups), answer, clock, p);
      ConcatBlocks(Written(last, active, Front(rollups), answer, clock), More(last, Last(rollups), answer, clock), p);
      MoreBlocks(last, Last(rollups), answer, clock, p);
      KeptBlocksSnoc(active, rollups, answer, p);
    }
  }

  lemma RowsBlock(rows: seq<Row>, order: seq<Domain>, last: map<Domain, Row>, p: Path)
    requires LinesRead(rows, order, last)
    ensures ListBlocks(rows, p) <==> AnyBlocks(order, p)
  {
    if ListBlocks(rows, p) {
      var i :| 0 <= i < |rows| && Blocks(rows[i].domain, p);
      assert rows[i].domain in order;
    }
    if AnyBlocks(order, p) {
      var i :| 0 <= i < |order| && Blocks(order[i], p);
      assert order[i] in last;
    }
  }

  ghost predicate NewlyBlocked(rollups: seq<Rollup>, answer: Domain -> bool, p: Path) {
    exists k :: 0 <= k < |rollups| && answer(rollups[k].parent) && Blocks(rollups[k].parent, p)
  }

  // The parent has a label, or its children have none either.
  ghost predicate Covers(r: Rollup) {
    NonEmpty(r.parent) != [] || forall c :: c in r.children ==> NonEmpty(c) == []
  }

  ghost predicate ParentsCover(rollups: seq<Rollup>, answer: Domain -> bool) {
    forall k :: 0 <= k < |rollups| && answer(rollups[k].parent) ==> Covers(rollups[k])
  }

  lemma KeptIsCovered(order: seq<Domain>, active: seq<Domain>, rollups: seq<Rollup>, answer: Domain -> bool, protected: set<Domain>, p: Path)
    requires Split(order, active, rollups) && ParentsCover(rollups, answer)
    requires forall k :: 0 <= k < |rollups| ==> CandidateOk(rollups[k], protected)
    ensures KeptBlocks(active, rollups, answer, p) <==> AnyBlocks(order, p) || NewlyBlocked(rollups, answer, p)
  {
    if AnyBlocks(order, p) {
      var i :| 0 <= i < |order| && Blocks(order[i], p);
      var d := order[i];
      if d in active {
        var j :| 0 <= j < |active| && active[j] == d;
      } else {
        assert Placed(order, active, rollups, d);
        var k :| 0 <= k < |rollups| && d in rollups[k].children;
        var j :| 0 <= j < |rollups[k].children| && rollups[k].children[j] == d;
        assert CandidateOk(rollups[k], protected);
        if answer(rollups[k].parent) {
          assert Covers(rollups[k]);
          ParentBlocks(d, rollups[k].parent, p);
        }
        assert StillBlocks(rollups[k], answer, p);
      }
    }
    if NewlyBlocked(rollups, answer, p) {
      var k :| 0 <= k < |rollups| && answer(rollups[k].parent) && Blocks(rollups[k].parent, p);
      assert StillBlocks(rollups[k], answer, p);
    }
    if KeptBlocks(active, rollups, answer, p) {
      KeptWasThere(order, active, rollups, answer, p);
    }
  }

  lemma KeptWasThere(order: seq<Domain>, active: seq<Domain>, rollups: seq<Rollup>, answer: Domain -> bool, p: Path)
    requires Split(order, active, rollups) && KeptBlocks(active, rollups, answer, p)
    ensures AnyBlocks(order, p) || NewlyBlocked(rollups, answer, p)
  {
    if AnyBlocks(active, p) {
      var i :| 0 <= i < |active| && Blocks(active[i], p);
      assert Placed(order, active, rollups, active[i]);
      Blocking(order, active[i], p);
    } else {
      var k :| 0 <= k < |rollups| && StillBlocks(rollups[k], answer, p);
      if !answer(rollups[k].parent) {
        var i :| 0 <= i < |rollups[k].children| && Blocks(rollups[k].children[i], p);
        assert Placed(order, active, rollups, rollups[k].children[i]);
        Blocking(order, rollups[k].children[i], p);
      }
    }
  }

  lemma Blocking(ds: seq<Domain>, d: Domain, p: Path)
    requires d in ds && Blocks(d, p)
    ensures AnyBlocks(ds, p)
  {
  }

  lemma AllKnown(rows: seq<Row>, order: seq<Domain>, last: map<Domain, Row>, active: seq<Domain>, rollups: seq<Rollup>)
    requires LinesRead(rows, order, last) && Split(order, active, rollups)
    ensures Known(last, active, rollups)
  {
    forall d | d in active ensures d in last {
      assert Placed(order, active, rollups, d);
    }
    forall k, c | 0 <= k < |rollups| && c in rollups[k].children ensures c in last {
      assert Placed(order, active, rollups, c);
    }
  }

  // No unprotected parent has three lines left below it.
  lemma NothingLeft(rows: seq<Row>, protected: set<Domain>, kids: Kids, active: seq<Domain>)
    requires KidsRead(rows, protected, kids)
    requires forall a {:trigger Spent(kids, a, active)} :: a in kids ==> Spent(kids, a, active)
    ensures forall a {:trigger KidsOf(rows, a)} :: a !in protected ==> |Still(KidsOf(rows, a), active)| < 3
  {
    forall a | a !in protected ensures |Still(KidsOf(rows, a), active)| < 3 {
      assert Get(kids, a) == KidsOf(rows, a);
      if a in kids {
        assert Spent(kids, a, active);
      }
    }
  }

  // ------------------------------------------------------------------
  // Lines without a newline
  // ------------------------------------------------------------------

  // A file: every line has a column, and only the last may lack its newline.
  ghost predicate FileOk(file: seq<Line>) {
    AllColumns(file) && WellEnded(file)
  }

  // The rows of the file end in one whose line lacks its newline.
  ghost predicate Open(rows: seq<Row>) {
    && rows != [] && !Last(rows).line.ended
    && forall i :: 0 <= i < |rows| - 1 ==> rows[i].line.ended
  }

  // The file's last line has its newline, or is passed over, or is the open row.
  lemma OpenOrNot(file: seq<Line>)
    requires FileOk(file)
    ensures var rows := RowsOf(file);
      if file == [] || Last(file).ended || Parse(Last(file)).None? then forall i :: 0 <= i < |rows| ==> rows[i].line.ended
      else Open(rows) && Last(rows).line == Last(file)
  {
    if file != [] {
      RowsFromLines(Front(file));
      forall i | 0 <= i < |RowsOf(Front(file))| ensures RowsOf(Front(file))[i].line.ended {
        var l := RowsOf(Front(file))[i].line;
        var j :| 0 <= j < |Front(file)| && Front(file)[j] == l;
        assert file[j] == l;
      }
    }
  }

  // The domain of the open row is named by no other line.
  ghost predicate Alone(rows: seq<Row>) {
    rows != [] && forall i :: 0 <= i < |rows| - 1 ==> rows[i].domain != Last(rows).domain
  }

  // The open row is written nowhere but at the very end: it is a child of an
  // accepted candidate, or of the last one, and on no other line.
  ghost predicate OpenIsSafe(rows: seq<Row>, rollups: seq<Rollup>, answer: Domain -> bool)
    requires rows != []
  {
    exists k :: 0 <= k < |rollups| && Last(rows).domain in rollups[k].children
      && (answer(rollups[k].parent) || (k == |rollups| - 1 && Alone(rows)))
  }

  // The condition on the file under which every written line but the last has its
  // newline.
  ghost predicate EndsSafely(file: seq<Line>, rollups: seq<Rollup>, answer: Domain -> bool) {
    || file == [] || Last(file).ended || Parse(Last(file)).None?
    || (RowsOf(file) != [] && OpenIsSafe(RowsOf(file), rollups, answer))
  }

  // Of the last lines of all domains only the open row's lacks its newline.
  lemma LastEnded(rows: seq<Row>, order: seq<Domain>, last: map<Domain, Row>, d: Domain)
    requires LinesRead(rows, order, last) && Open(rows) && d in last
    ensures last[d].line.ended <==> d != Last(rows).domain
  {
    assert IsLastLine(rows, d, last[d]);
    var i :| 0 <= i < |rows| && rows[i] == last[d] && last[d].domain == d && forall j :: i < j < |rows| ==> rows[j].domain != d;
  }

  ghost predicate RowsEnded(rows: seq<Row>) {
    forall i :: 0 <= i < |rows| ==> rows[i].line.ended
  }

  lemma KeptEnded(rows: seq<Row>, order: seq<Domain>, last: map<Domain, Row>, ds: seq<Domain>)
    requires LinesRead(rows, order, last) && Open(rows) && forall d :: d in ds ==> d in last
    ensures RowsEnded(Kept(last, ds)) <==> Last(rows).domain !in ds
    ensures WellEnded(LinesOf(Kept(last, ds))) <==> forall i :: 0 <= i < |ds| - 1 ==> ds[i] != Last(rows).domain
  {
    forall i | 0 <= i < |ds| ensures Kept(last, ds)[i].line.ended <==> ds[i] != Last(rows).domain {
      LastEnded(rows, order, last, ds[i]);
    }
  }

  lemma MoreEnded(rows: seq<Row>, order: seq<Domain>, last: map<Domain, Row>, r: Rollup, answer: Domain -> bool, clock: Domain -> nat)
    requires LinesRead(rows, order, last) && Open(rows) && forall c :: c in r.children ==> c in last
    ensures RowsEnded(More(last, r, answer, clock)) <==> answer(r.parent) || Last(rows).domain !in r.children
  {
    hide LinesRead, Kept;
    KeptEnded(rows, order, last, r.children);
  }

  // Everything written is ended exactly if the open row is written nowhere.
  lemma {:induction false} WrittenEnded(rows: seq<Row>, order: seq<Domain>, last: map<Domain, Row>, active: seq<Domain>, rollups: seq<Rollup>, answer: Domain -> bool, clock: Domain -> nat)
    requires LinesRead(rows, order, last) && Open(rows) && Known(last, active, rollups)
    ensures RowsEnded(Written(last, active, rollups, answer, clock)) <==>
      Last(rows).domain !in active && forall k :: 0 <= k < |rollups| && Last(rows).domain in rollups[k].children ==> answer(rollups[k].parent)
  {
    if rollups == [] {
      KeptEnded(rows, order, last, active);
    } else {
      hide LinesRead, Kept, More, RowsEnded;
      assert rollups == Front(rollups) + [Last(rollups)];
      WrittenEnded(rows, order, last, active, Front(rollups), answer, clock);
      MoreEnded(rows, order, last, Last(rollups), answer, clock);
      EndedConcat(Written(last, active, Front(rollups), answer, clock), More(last, Last(rollups), answer, clock));
      assert forall k :: 0 <= k < |Front(rollups)| ==> Front(rollups)[k] == rollups[k];
    }
  }

  lemma EndedConcat(xs: seq<Row>, ys: seq<Row>)
    ensures RowsEnded(xs + ys) <==> RowsEnded(xs) && RowsEnded(ys)
    ensures ys != [] ==> (WellEnded(LinesOf(xs + ys)) <==> RowsEnded(xs) && WellEnded(LinesOf(ys)))
  {
    var all := xs + ys;
    assert forall i :: 0 <= i < |xs| ==> all[i] == xs[i];
    assert forall i :: 0 <= i < |ys| ==> all[|xs| + i] == ys[i];
    if RowsEnded(all) {
      forall i | 0 <= i < |ys| ensures ys[i].line.ended { assert all[|xs| + i].line.ended; }
    }
    if ys != [] && WellEnded(LinesOf(all)) {
      forall i | 0 <= i < |xs| ensures xs[i].line.ended { assert LinesOf(all)[i].ended; }
      forall i | 0 <= i < |ys| - 1 ensures LinesOf(ys)[i].ended { assert LinesOf(all)[|xs| + i].ended; }
    }
  }

  // A domain still active is in Still exactly as often as in the list.
  lemma {:induction false} StillKeeps(s: seq<Domain>, active: seq<Domain>, d: Domain)
    requires d in active
    ensures d in Still(s, active) <==> d in s
    ensures s != [] && Last(s) == d ==>
      && Still(s, active) != [] && Last(Still(s, active)) == d
      && ((forall i :: 0 <= i < |Still(s, active)| - 1 ==> Still(s, active)[i] != d) <==> d !in Front(s))
  {
    if s != [] && Last(s) == d {
      var front, r := Still(Front(s), active), Still(s, active);
      assert r == front + [d];
      assert d in front <==> d in Front(s);
      if d in front {
        var k :| 0 <= k < |front| && front[k] == d;
        assert r[k] == d;
      } else {
        assert forall i :: 0 <= i < |r| - 1 ==> r[i] == front[i] && front[i] in front;
      }
    }
  }

  // A domain on some line is among the kids of every parent above it.
  lemma {:induction false} KidsHave(rows: seq<Row>, a: Domain, d: Domain)
    requires Below(d, a)
    ensures d in KidsOf(rows, a) <==> HasRow(rows, d)
  {
    if rows != [] {
      KidsHave(Front(rows), a, d);
      HasRowSnoc(Front(rows), Last(rows), d);
      assert rows == Front(rows) + [Last(rows)];
    }
  }

  lemma OpenHas(rows: seq<Row>)
    requires Open(rows)
    ensures rows != []
  {
  }

  lemma KidsAre(rows: seq<Row>, protected: set<Domain>, kids: Kids, r: Rollup)
    requires KidsRead(rows, protected, kids) && CandidateOk(r, protected)
    ensures Get(kids, r.parent) == KidsOf(rows, r.parent)
  {
  }

  // In its candidate the open row comes last, and once exactly if it is alone.
  lemma OpenChild(rows: seq<Row>, protected: set<Domain>, kids: Kids, r: Rollup)
    requires Open(rows) && KidsRead(rows, protected, kids) && FromKids(r, kids) && CandidateOk(r, protected)
    requires Last(rows).domain in r.children
    ensures (forall i :: 0 <= i < |r.children| - 1 ==> r.children[i] != Last(rows).domain) <==> Alone(rows)
  {
    hide KidsRead, Still, Open;
    OpenHas(rows);
    var d := Last(rows).domain;
    KidsAre(rows, protected, kids, r);
    var active: seq<Domain> :| r.children == Still(Get(kids, r.parent), active);
    assert Below(d, r.parent);
    var s := KidsOf(rows, r.parent);
    assert s == KidsOf(Front(rows), r.parent) + [d];
    assert Front(s) == KidsOf(Front(rows), r.parent);
    StillKeeps(s, active, d);
    KidsHave(Front(rows), r.parent, d);
    assert Alone(rows) <==> !HasRow(Front(rows), d);
  }

  // Every written line but the last has its newline exactly under that condition.
  lemma EndsSafelyIff(file: seq<Line>, order: seq<Domain>, last: map<Domain, Row>, kids: Kids, protected: set<Domain>, sorted: seq<Domain>,
                      rollups: seq<Rollup>, active: seq<Domain>, answer: Domain -> bool, clock: Domain -> nat)
    requires FileOk(file) && LinesRead(RowsOf(file), order, last) && KidsRead(RowsOf(file), protected, kids)
    requires Chosen(order, sorted, kids, protected, rollups, active) && rollups != [] && Known(last, active, rollups)
    ensures WellEnded(LinesOf(Written(last, active, rollups, answer, clock))) <==> EndsSafely(file, rollups, answer)
  {
    hide LinesRead, KidsRead, Parse;
    var rows := RowsOf(file);
    OpenOrNot(file);
    if file == [] || Last(file).ended || Parse(Last(file)).None? {
      AllRowsEnded(rows, order, last, active, rollups, answer, clock);
    } else {
      OpenEnds(rows, order, last, kids, protected, sorted, rollups, active, answer, clock);
    }
  }

  lemma {:induction false} AllRowsEnded(rows: seq<Row>, order: seq<Domain>, last: map<Domain, Row>, active: seq<Domain>, rollups: seq<Rollup>, answer: Domain -> bool, clock: Domain -> nat)
    requires LinesRead(rows, order, last) && RowsEnded(rows) && Known(last, active, rollups)
    ensures RowsEnded(Written(last, active, rollups, answer, clock))
    ensures WellEnded(LinesOf(Written(last, active, rollups, answer, clock)))
  {
    forall d | d in last ensures last[d].line.ended {
      assert IsLastLine(rows, d, last[d]);
    }
    if rollups != [] {
      AllRowsEnded(rows, order, last, active, Front(rollups), answer, clock);
    }
  }

  lemma OpenEnds(rows: seq<Row>, order: seq<Domain>, last: map<Domain, Row>, kids: Kids, protected: set<Domain>, sorted: seq<Domain>,
                 rollups: seq<Rollup>, active: seq<Domain>, answer: Domain -> bool, clock: Domain -> nat)
    requires Open(rows) && LinesRead(rows, order, last) && KidsRead(rows, protected, kids)
    requires Chosen(order, sorted, kids, protected, rollups, active) && rollups != [] && Known(last, active, rollups)
    ensures WellEnded(LinesOf(Written(last, active, rollups, answer, clock))) <==> OpenIsSafe(rows, rollups, answer)
  {
    hide LinesRead, KidsRead, CandidateOk, FromKids, Alone, RowsEnded, WellEnded, Kept, ParentRow;
    var d, front, r := Last(rows).domain, Front(rollups), Last(rollups);
    OpenPlaced(rows, order, last, rollups, active);
    WrittenEnded(rows, order, last, active, front, answer, clock);
    KeptEnded(rows, order, last, r.children);
    MoreSome(last, r, protected, answer, clock);
    EndedConcat(Written(last, active, front, answer, clock), More(last, r, answer, clock));
    assert forall k :: 0 <= k < |front| ==> front[k] == rollups[k];
    ParentEnded(last, r, answer, clock);
    if d in r.children {
      OpenChild(rows, protected, kids, r);
    } else {
      NotAChild(r, d);
    }
  }

  lemma NotAChild(r: Rollup, d: Domain)
    requires d !in r.children
    ensures forall i :: 0 <= i < |r.children| - 1 ==> r.children[i] != d
  {
  }

  lemma ParentEnded(last: map<Domain, Row>, r: Rollup, answer: Domain -> bool, clock: Domain -> nat)
    requires forall c :: c in r.children ==> c in last
    ensures answer(r.parent) ==> WellEnded(LinesOf(More(last, r, answer, clock)))
  {
  }

  lemma MoreSome(last: map<Domain, Row>, r: Rollup, protected: set<Domain>, answer: Domain -> bool, clock: Domain -> nat)
    requires CandidateOk(r, protected) && forall c :: c in r.children ==> c in last
    ensures More(last, r, answer, clock) != []
  {
  }

  // The open row's domain is active or in exactly one candidate.
  lemma OpenPlaced(rows: seq<Row>, order: seq<Domain>, last: map<Domain, Row>, rollups: seq<Rollup>, active: seq<Domain>)
    requires LinesRead(rows, order, last) && rows != [] && Split(order, active, rollups)
    ensures var d := Last(rows).domain; d in active || Taken(rollups, d)
  {
    var d := Last(rows).domain;
    assert rows[|rows| - 1].domain == d;
    assert d in last && d in order;
    assert Placed(order, active, rollups, d);
  }

  // ------------------------------------------------------------------
  // optimize_blocklist
  // ------------------------------------------------------------------

  ghost predicate FileBlocks(file: seq<Line>, p: Path) {
    ListBlocks(RowsOf(file), p)
  }

  // The dictionaries: the domains in order of their first line, their last lines,
  // and the parents in order with the lines below them.
  datatype Dicts = Dicts(order: seq<Domain>, last: map<Domain, Row>, parents: seq<Domain>, kids: Kids)

  // The file read, and the candidates chosen from the longest parent down.
  ghost predicate Chose(file: seq<Line>, protected: set<Domain>, dicts: Dicts, rollups: seq<Rollup>, active: seq<Domain>) {
    && LinesRead(RowsOf(file), dicts.order, dicts.last)
    && KidsRead(RowsOf(file), protected, dicts.kids)
    && Distinct(dicts.parents) && (forall a :: a in dicts.parents <==> a in dicts.kids)
    && (rollups, active) == Choose(LongestFirst(dicts.parents), dicts.kids, dicts.order)
  }

  // The whole of optimize_blocklist, on a file whose rows all block.  The file
  // afterwards holds the lines as they were written exactly if it ends safely; and
  // then nothing blocked is lost, and all that is gained lies at or under an
  // accepted parent, whatever the answers.
  method OptimizeBlocklist(file: seq<Line>, protected: set<Domain>, answer: Domain -> bool, clock: Domain -> nat)
    returns (after: seq<Line>, rollups: seq<Rollup>, ghost active: seq<Domain>, ghost dicts: Dicts)
    requires FileOk(file)
    ensures Chose(file, protected, dicts, rollups, active)
    ensures Split(dicts.order, active, rollups) && Known(dicts.last, active, rollups)
    ensures forall k :: 0 <= k < |rollups| ==> CandidateOk(rollups[k], protected)
    ensures Ordered(Parents(rollups))
    ensures forall a {:trigger KidsOf(RowsOf(file), a)} :: a !in protected ==> |Still(KidsOf(RowsOf(file), a), active)| < 3
    ensures rollups == [] ==> after == file
    ensures rollups != [] ==>
      var lines := LinesOf(Written(dicts.last, active, rollups, answer, clock));
      && AllColumns(lines) && after == Joined(lines)
      && (after == lines <==> EndsSafely(file, rollups, answer))
    ensures (rollups == [] || EndsSafely(file, rollups, answer)) && ParentsCover(rollups, answer) ==>
      forall p {:trigger FileBlocks(after, p)} :: FileBlocks(after, p) <==> FileBlocks(file, p) || NewlyBlocked(rollups, answer, p)
  {
    hide EndsSafely, Written, Chosen, LinesRead, KidsRead, ListBlocks, Joined;
    var order, last, parents, kids := ReadList(file, protected);
    var active';
    rollups, active' := ChooseRollups(order, parents, kids);
    active, dicts := active', Dicts(order, last, parents, kids);
    ghost var sorted := LongestFirst(parents);
    ChosenFacts(file, protected, kids, parents, order, last, rollups, active);
    LongestFirstOrdered(parents, 0);
    ChooseOrdered(sorted, kids, order);
    hide Ordered;
    if rollups == [] {
      after := file;
      return;
    }
    var rows := Rewrite(last, active', rollups, answer, clock);
    LastIsOk(file, order, last);
    WrittenFromLines(last, active, rollups, answer, clock, protected);
    ReadAgain(rows);
    after := Joined(LinesOf(rows));
    JoinedIff(LinesOf(rows));
    EndsSafelyIff(file, order, last, kids, protected, sorted, rollups, active, answer, clock);
    if EndsSafely(file, rollups, answer) && ParentsCover(rollups, answer) {
      forall p ensures FileBlocks(after, p) <==> FileBlocks(file, p) || NewlyBlocked(rollups, answer, p) {
        WrittenBlocks(last, active, rollups, answer, clock, p);
        RowsBlock(RowsOf(file), order, last, p);
        KeptIsCovered(order, active, rollups, answer, protected, p);
      }
    }
  }

  lemma ChosenFacts(file: seq<Line>, protected: set<Domain>, kids: Kids, parents: seq<Domain>, order: seq<Domain>, last: map<Domain, Row>, rollups: seq<Rollup>, active: seq<Domain>)
    requires LinesRead(RowsOf(file), order, last) && KidsRead(RowsOf(file), protected, kids) && forall a :: a in parents <==> a in kids
    requires (rollups, active) == Choose(LongestFirst(parents), kids, order)
    ensures Chosen(order, LongestFirst(parents), kids, protected, rollups, active)
    ensures Split(order, active, rollups) && Known(last, active, rollups)
    ensures forall k :: 0 <= k < |rollups| ==> CandidateOk(rollups[k], protected)
    ensures forall a {:trigger KidsOf(RowsOf(file), a)} :: a !in protected ==> |Still(KidsOf(RowsOf(file), a), active)| < 3
  {
    LongestFirstElements(parents);
    ChooseOk(RowsOf(file), protected, kids, order, LongestFirst(parents));
    AllKnown(RowsOf(file), order, last, active, rollups);
    NothingLeft(RowsOf(file), protected, kids, active);
  }

  // What an unsafe ending leaves: exactly the lines that start where they were
  // written still count, each with what runs on into it.
  lemma SwallowedLines(lines: seq<Line>, p: Path)
    requires AllColumns(lines)
    ensures FileBlocks(Joined(lines), p) <==>
      exists d :: StillLists(lines, d) && Blocks(d, p)
  {
    var rows := RowsOf(Joined(lines));
    if FileBlocks(Joined(lines), p) {
      var i :| 0 <= i < |rows| && Blocks(rows[i].domain, p);
      RowsName(Joined(lines), rows[i].domain);
      JoinedLists(lines, rows[i].domain);
    }
    if d :| StillLists(lines, d) && Blocks(d, p) {
      JoinedLists(lines, d);
      RowsName(Joined(lines), d);
    }
  }

  // An accepted parent blocks all its children blocked exactly when it has a
  // label at all, or its children have none either: "." is the parent of "x..",
  // and the tree has no place for it.
  lemma ParentCoversIff(r: Rollup, protected: set<Domain>)
    requires CandidateOk(r, protected)
    ensures (forall c, p :: c in r.children && Blocks(c, p) ==> Blocks(r.parent, p))
      <==> Covers(r)
  {
    if NonEmpty(r.parent) != [] {
      forall c, p | c in r.children && Blocks(c, p) ensures Blocks(r.parent, p) {
        ParentBlocks(c, r.parent, p);
      }
    } else if c :| c in r.children && NonEmpty(c) != [] {
      assert Blocks(c, PathOfDomain(c));
    }
  }

  // Both sides of the coverage statement are what the tree decides: a table
  // filled from rows that all block, blocks a name exactly when the list does.
  lemma TreeBlocksIffListBlocks(rows: seq<Row>, t: Table, p: Path)
    requires forall q :: q in t <==> exists i :: 0 <= i < |rows| && q == PathOfDomain(rows[i].domain) && q != []
    requires forall q :: q in t ==> t[q].status == Blocked
    ensures Matched(t, p) && Deciding(t, p).status == Blocked <==> ListBlocks(rows, p)
  {
    WinnerStatus(t, p, |p|);
    if ListBlocks(rows, p) {
      var i :| 0 <= i < |rows| && Blocks(rows[i].domain, p);
      var q := PathOfDomain(rows[i].domain);
      assert p[..|q|] == q;
      assert EntryAt(t, p, |q|, Blocked);
    }
    if Matched(t, p) {
      var q := p[..Winner(t, p)];
      var i :| 0 <= i < |rows| && q == PathOfDomain(rows[i].domain) && q != [];
      assert Blocks(rows[i].domain, p);
    }
  }
}
