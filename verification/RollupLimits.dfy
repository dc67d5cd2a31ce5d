// Two lists scripts/clean_blocklist.py does not keep: one whose last line has no
// newline, and one whose common parent is nothing but dots.
module RollupLimits {
  import opened Prelude
  import opened Names
  import opened BlockFile
  import opened Rollup

  // A line with a status, the domain and a source.
  function Entry(d: Domain, ended: bool): Line {
    Line([BLOCK_COLUMN, Join(d), STATIC_COLUMN], ended)
  }

  function EntryRow(d: Domain, ended: bool): Row {
    Row(d, None, Entry(d, ended))
  }

  lemma EntryParses(d: Domain, ended: bool)
    requires Plain(d)
    ensures Parse(Entry(d, ended)) == Some(EntryRow(d, ended))
  {
    DomainOfJoin(d);
  }

  // Three children of one parent.
  function Three(a: Label, b: Label, c: Label, parent: Domain): seq<Domain> {
    [[a] + parent, [b] + parent, [c] + parent]
  }

  ghost predicate ThreeOk(a: Label, b: Label, c: Label, parent: Domain) {
    && a != b && b != c && a != c && |parent| == 2
    && Plain([a] + parent) && Plain([b] + parent) && Plain([c] + parent)
  }

  function ThreeEntries(a: Label, b: Label, c: Label, parent: Domain): seq<Line> {
    [Entry([a] + parent, true), Entry([b] + parent, true), Entry([c] + parent, true)]
  }

  function ThreeEntryRows(a: Label, b: Label, c: Label, parent: Domain): seq<Row> {
    [EntryRow([a] + parent, true), EntryRow([b] + parent, true), EntryRow([c] + parent, true)]
  }

  lemma RowsSnoc(lines: seq<Line>, l: Line)
    requires Parse(l).Some?
    ensures RowsOf(lines + [l]) == RowsOf(lines) + [Parse(l).value]
  {
    assert Front(lines + [l]) == lines;
  }

  lemma ThreeRows(a: Label, b: Label, c: Label, parent: Domain)
    requires ThreeOk(a, b, c, parent)
    ensures RowsOf(ThreeEntries(a, b, c, parent)) == ThreeEntryRows(a, b, c, parent)
  {
    hide Parse, RowsOf, Entry, EntryRow, Plain;
    var x, y, z := [a] + parent, [b] + parent, [c] + parent;
    EntryParses(x, true);
    EntryParses(y, true);
    EntryParses(z, true);
    NoRows();
    RowsSnoc([], Entry(x, true));
    RowsSnoc([Entry(x, true)], Entry(y, true));
    RowsSnoc([Entry(x, true), Entry(y, true)], Entry(z, true));
    assert [] + [Entry(x, true)] == [Entry(x, true)];
    assert [Entry(x, true)] + [Entry(y, true)] == [Entry(x, true), Entry(y, true)];
    assert ThreeEntries(a, b, c, parent) == [Entry(x, true), Entry(y, true)] + [Entry(z, true)];
    assert [] + [EntryRow(x, true)] == [EntryRow(x, true)];
    assert [EntryRow(x, true)] + [EntryRow(y, true)] + [EntryRow(z, true)] == ThreeEntryRows(a, b, c, parent);
  }

  lemma NoRows()
    ensures RowsOf([]) == []
  {
  }

  lemma KidsSnoc(rows: seq<Row>, r: Row, a: Domain)
    ensures KidsOf(rows + [r], a) == KidsOf(rows, a) + (if Below(r.domain, a) then [r.domain] else [])
  {
    assert Front(rows + [r]) == rows;
  }

  // Below a domain of three labels there is only the domain of the last two.
  lemma OnlyParent(x: Label, parent: Domain, a: Domain)
    requires |parent| == 2
    ensures Below([x] + parent, a) <==> a == parent
  {
    assert ([x] + parent)[1..] == parent;
  }

  // The candidates of three such rows, and perhaps one more that has no parents.
  ghost predicate ThreeRead(rows: seq<Row>, a: Label, b: Label, c: Label, parent: Domain) {
    && |parent| == 2 && 3 <= |rows| <= 4
    && rows[0].domain == [a] + parent && rows[1].domain == [b] + parent && rows[2].domain == [c] + parent
    && (|rows| == 4 ==> |rows[3].domain| == 2)
  }

  lemma ThreeKids(rows: seq<Row>, a: Label, b: Label, c: Label, parent: Domain, q: Domain)
    requires ThreeRead(rows, a, b, c, parent)
    ensures KidsOf(rows, q) == if q == parent then Three(a, b, c, parent) else []
  {
    hide Below;
    KidsSnoc([], rows[0], q);
    KidsSnoc([rows[0]], rows[1], q);
    KidsSnoc([rows[0], rows[1]], rows[2], q);
    OnlyParent(a, parent, q);
    OnlyParent(b, parent, q);
    OnlyParent(c, parent, q);
    assert [] + [rows[0]] == [rows[0]];
    var three := [rows[0], rows[1]] + [rows[2]];
    if |rows| == 3 {
      assert rows == three;
    } else {
      KidsSnoc(three, rows[3], q);
      NotBelow(rows[3].domain, q);
      assert rows == three + [rows[3]];
    }
  }

  lemma NotBelow(d: Domain, a: Domain)
    requires |d| == 2
    ensures !Below(d, a)
  {
  }

  lemma Singleton<T>(s: seq<T>, x: T)
    requires Distinct(s) && forall y :: y in s <==> y == x
    ensures s == [x]
  {
    assert x in s;
    forall i | 0 <= i < |s| ensures s[i] == x {
      assert s[i] in s;
    }
    AtMostOne(s, x);
  }

  lemma AtMostOne<T>(s: seq<T>, x: T)
    requires forall i :: 0 <= i < |s| ==> s[i] == x
    ensures |s| <= 1 || !Distinct(s)
  {
    if |s| > 1 { assert s[0] == s[1]; }
  }

  lemma StillSnoc(s: seq<Domain>, d: Domain, active: seq<Domain>)
    requires d in active
    ensures Still(s + [d], active) == Still(s, active) + [d]
  {
    assert Front(s + [d]) == s;
  }

  lemma StillAll(a: Label, b: Label, c: Label, parent: Domain, active: seq<Domain>)
    requires [a] + parent in active && [b] + parent in active && [c] + parent in active
    ensures Still(Three(a, b, c, parent), active) == Three(a, b, c, parent)
  {
    var x, y, z := [a] + parent, [b] + parent, [c] + parent;
    assert Still([], active) == [];
    hide Still;
    StillSnoc([], x, active);
    StillSnoc([x], y, active);
    StillSnoc([x, y], z, active);
    assert [] + [x] == [x];
    assert [x] + [y] == [x, y];
    assert [x, y] + [z] == [x, y, z];
  }

  lemma InLast(rows: seq<Row>, order: seq<Domain>, last: map<Domain, Row>, d: Domain)
    requires LinesRead(rows, order, last)
    ensures d in order <==> d in last
    ensures d in last <==> HasRow(rows, d)
  {
  }

  lemma ThreeHave(a: Label, b: Label, c: Label, parent: Domain, d: Domain)
    ensures HasRow(ThreeEntryRows(a, b, c, parent), d) <==> d in Three(a, b, c, parent)
  {
    var rows := ThreeEntryRows(a, b, c, parent);
    assert rows[0].domain == [a] + parent && rows[1].domain == [b] + parent && rows[2].domain == [c] + parent;
  }

  // The one candidate such a list has.
  lemma ThreeChosen(file: seq<Line>, dicts: Dicts, rollups: seq<Rollup>, active: seq<Domain>, a: Label, b: Label, c: Label, parent: Domain)
    requires Chose(file, {}, dicts, rollups, active) && ThreeRead(RowsOf(file), a, b, c, parent)
    ensures rollups == [Rollup(parent, Three(a, b, c, parent))]
    ensures active == Gone(dicts.order, Three(a, b, c, parent))
  {
    var rows := RowsOf(file);
    forall q ensures Get(dicts.kids, q) == (if q == parent then Three(a, b, c, parent) else []) && (q in dicts.kids <==> q == parent) {
      ThreeKids(rows, a, b, c, parent, q);
    }
    Singleton(dicts.parents, parent);
    assert [parent][1..] == [];
    assert LongestFirst([parent]) == [parent];
    assert Front([parent]) == [];
    assert Choose([], dicts.kids, dicts.order) == ([], dicts.order);
    assert rows[0].domain in dicts.last && rows[1].domain in dicts.last && rows[2].domain in dicts.last;
    StillAll(a, b, c, parent, dicts.order);
    assert [] + [Rollup(parent, Three(a, b, c, parent))] == [Rollup(parent, Three(a, b, c, parent))];
  }

  // A list of three children and, without its newline, one more line: accepting
  // their parent glues the parent's line to that line, and nothing of the parent
  // is blocked any more.
  lemma GluedParentIsLost(a: Label, b: Label, c: Label, parent: Domain, other: Domain,
                          dicts: Dicts, rollups: seq<Rollup>, active: seq<Domain>, clock: Domain -> nat, p: Path)
    requires ThreeOk(a, b, c, parent) && Plain(other) && |other| == 2
    requires Chose(ThreeEntries(a, b, c, parent) + [Entry(other, false)], {}, dicts, rollups, active)
    ensures Known(dicts.last, active, rollups)
    ensures var lines := LinesOf(Written(dicts.last, active, rollups, _ => true, clock));
      && AllColumns(lines) && !WellEnded(lines)
      && (FileBlocks(Joined(lines), p) <==> Blocks(other, p))
    ensures FileBlocks(ThreeEntries(a, b, c, parent) + [Entry(other, false)], p) <==>
      Blocks(other, p) || Blocks([a] + parent, p) || Blocks([b] + parent, p) || Blocks([c] + parent, p)
  {
    hide Parse, Choose, Entry, Plain, LinesRead, KidsRead, Below, FileBlocks, Blocks, Written, ParentLine;
    var file := ThreeEntries(a, b, c, parent) + [Entry(other, false)];
    ThreeRows(a, b, c, parent);
    EntryParses(other, false);
    RowsSnoc(ThreeEntries(a, b, c, parent), Entry(other, false));
    var rows := RowsOf(file);
    assert rows == ThreeEntryRows(a, b, c, parent) + [EntryRow(other, false)];
    FileSays(file, ThreeEntryRows(a, b, c, parent), EntryRow(other, false), p);
    ThreeChosen(file, dicts, rollups, active, a, b, c, parent);
    OnlyOther(rows, dicts, active, a, b, c, parent, other);
    GluedLines(dicts.last, active, rollups, clock, a, b, c, parent, other);
    GluedSays(rollups[0], other, ParentTtl(dicts.last, rollups[0]), clock(parent), p);
  }

  lemma FileSays(file: seq<Line>, rows: seq<Row>, r: Row, p: Path)
    requires RowsOf(file) == rows + [r] && |rows| == 3
    ensures FileBlocks(file, p) <==> Blocks(r.domain, p) || Blocks(rows[0].domain, p) || Blocks(rows[1].domain, p) || Blocks(rows[2].domain, p)
  {
    var all := rows + [r];
    assert all[0] == rows[0] && all[1] == rows[1] && all[2] == rows[2] && all[3] == r;
  }

  lemma OnlyOther(rows: seq<Row>, dicts: Dicts, active: seq<Domain>, a: Label, b: Label, c: Label, parent: Domain, other: Domain)
    requires |parent| == 2 && |other| == 2 && rows == ThreeEntryRows(a, b, c, parent) + [EntryRow(other, false)]
    requires LinesRead(rows, dicts.order, dicts.last) && active == Gone(dicts.order, Three(a, b, c, parent))
    ensures active == [other] && other in dicts.last && dicts.last[other] == EntryRow(other, false)
    ensures forall d :: d in Three(a, b, c, parent) ==> d in dicts.last
  {
    hide LinesRead, Three, Gone;
    forall d ensures (d in dicts.last <==> d in Three(a, b, c, parent) || d == other) && (d in dicts.order <==> d in dicts.last) {
      InLast(rows, dicts.order, dicts.last, d);
      HasRowSnoc(ThreeEntryRows(a, b, c, parent), EntryRow(other, false), d);
      ThreeHave(a, b, c, parent, d);
    }
    NotOfThree(a, b, c, parent, other);
    DistinctOrder(rows, dicts.order, dicts.last);
    assert forall d :: d in active <==> d == other;
    Singleton(active, other);
    LastOfRows(rows, dicts.order, dicts.last, ThreeEntryRows(a, b, c, parent), EntryRow(other, false));
  }

  lemma NotOfThree(a: Label, b: Label, c: Label, parent: Domain, other: Domain)
    requires |parent| == 2 && |other| == 2
    ensures other !in Three(a, b, c, parent)
  {
    assert forall d :: d in Three(a, b, c, parent) ==> |d| == 3;
  }

  lemma DistinctOrder(rows: seq<Row>, order: seq<Domain>, last: map<Domain, Row>)
    requires LinesRead(rows, order, last)
    ensures Distinct(order)
  {
  }

  // The last row of all is the last line of its domain.
  lemma LastOfRows(rows: seq<Row>, order: seq<Domain>, last: map<Domain, Row>, front: seq<Row>, r: Row)
    requires LinesRead(rows, order, last) && rows == front + [r]
    ensures r.domain in last && last[r.domain] == r
  {
    assert rows[|front|] == r;
    assert r.domain in last;
    assert IsLastLine(rows, r.domain, last[r.domain]);
  }

  lemma GluedLines(last: map<Domain, Row>, active: seq<Domain>, rollups: seq<Rollup>, clock: Domain -> nat, a: Label, b: Label, c: Label, parent: Domain, other: Domain)
    requires rollups == [Rollup(parent, Three(a, b, c, parent))] && active == [other]
    requires other in last && last[other] == EntryRow(other, false) && forall d :: d in Three(a, b, c, parent) ==> d in last
    ensures Known(last, active, rollups)
    ensures LinesOf(Written(last, active, rollups, _ => true, clock)) ==
      [Entry(other, false), ParentLine(parent, ParentTtl(last, rollups[0]), clock(parent))]
  {
    assert Front(rollups) == [] && Last(rollups) == rollups[0];
    assert Written(last, active, Front(rollups), _ => true, clock) == [last[other]];
  }

  // The parent's line runs on from the other one.
  lemma GluedSays(r: Rollup, other: Domain, ttl: nat, time: nat, p: Path)
    requires Plain(other)
    ensures var lines := [Entry(other, false), ParentLine(r.parent, ttl, time)];
      AllColumns(lines) && !WellEnded(lines) && (FileBlocks(Joined(lines), p) <==> Blocks(other, p))
  {
    assert !Entry(other, false).ended;
    var lines := [Entry(other, false), ParentLine(r.parent, ttl, time)];
    DomainOfJoin(other);
    SwallowedLines(lines, p);
    assert Starts(lines, 0) && !Starts(lines, 1);
    forall d ensures StillLists(lines, d) <==> d == other {
      RunOnSays(lines, 0, d);
    }
  }

  // Running together is not always a loss: where the swallowed line says nothing
  // new, coverage is kept all the same.  Here the open line is the parent's own.
  lemma GluedIntoParent(a: Label, b: Label, c: Label, parent: Domain, dicts: Dicts, rollups: seq<Rollup>, active: seq<Domain>, clock: Domain -> nat, p: Path)
    requires ThreeOk(a, b, c, parent) && Plain(parent) && NonEmpty(parent) != []
    requires Chose(ThreeEntries(a, b, c, parent) + [Entry(parent, false)], {}, dicts, rollups, active)
    ensures Known(dicts.last, active, rollups)
    ensures var lines := LinesOf(Written(dicts.last, active, rollups, _ => true, clock));
      && AllColumns(lines) && !WellEnded(lines)
      && (FileBlocks(Joined(lines), p) <==> FileBlocks(ThreeEntries(a, b, c, parent) + [Entry(parent, false)], p))
  {
    hide Chose, Choose, Entry, Plain, Written, ParentLine, FileBlocks, Blocks;
    GluedParentIsLost(a, b, c, parent, parent, dicts, rollups, active, clock, p);
    OnlyParent(a, parent, parent);
    OnlyParent(b, parent, parent);
    OnlyParent(c, parent, parent);
    if Blocks([a] + parent, p) { ParentBlocks([a] + parent, parent, p); }
    if Blocks([b] + parent, p) { ParentBlocks([b] + parent, parent, p); }
    if Blocks([c] + parent, p) { ParentBlocks([c] + parent, parent, p); }
  }

  // Three names of one label and two dots have the parent "."; accepting it leaves
  // a list that blocks nothing.
  lemma DotsBlockNothing(a: Label, b: Label, c: Label, dicts: Dicts, rollups: seq<Rollup>, active: seq<Domain>, clock: Domain -> nat, p: Path)
    requires ThreeOk(a, b, c, [[], []]) && a != []
    requires Chose(ThreeEntries(a, b, c, [[], []]), {}, dicts, rollups, active)
    ensures rollups == [Rollup([[], []], Three(a, b, c, [[], []]))] && Known(dicts.last, active, rollups)
    ensures !ListBlocks(Written(dicts.last, active, rollups, _ => true, clock), p)
    ensures FileBlocks(ThreeEntries(a, b, c, [[], []]), [a])
  {
    hide Parse, Choose, Entry, Plain, LinesRead, KidsRead, Below, Written, PathOfDomain;
    var parent: Domain := [[], []];
    var file := ThreeEntries(a, b, c, parent);
    ThreeRows(a, b, c, parent);
    ThreeChosen(file, dicts, rollups, active, a, b, c, parent);
    NothingElse(RowsOf(file), dicts, active, a, b, c, parent);
    ParentAlone(dicts.last, rollups, clock, parent);
    DotsHaveNoPath(a);
    assert Blocks(RowsOf(file)[0].domain, [a]);
  }

  lemma ParentAlone(last: map<Domain, Row>, rollups: seq<Rollup>, clock: Domain -> nat, parent: Domain)
    requires |rollups| == 1 && rollups[0].parent == parent && forall d :: d in rollups[0].children ==> d in last
    ensures Known(last, [], rollups)
    ensures var rows := Written(last, [], rollups, _ => true, clock); |rows| == 1 && rows[0].domain == parent
  {
    assert Front(rollups) == [] && Last(rollups) == rollups[0];
    assert Written(last, [], Front(rollups), _ => true, clock) == [];
  }

  lemma NothingElse(rows: seq<Row>, dicts: Dicts, active: seq<Domain>, a: Label, b: Label, c: Label, parent: Domain)
    requires rows == ThreeEntryRows(a, b, c, parent)
    requires LinesRead(rows, dicts.order, dicts.last) && active == Gone(dicts.order, Three(a, b, c, parent))
    ensures active == [] && forall d :: d in Three(a, b, c, parent) ==> d in dicts.last
  {
    hide LinesRead, Three, Gone;
    forall d ensures (d in dicts.last <==> d in Three(a, b, c, parent)) && (d in dicts.order <==> d in dicts.last) {
      InLast(rows, dicts.order, dicts.last, d);
      ThreeHave(a, b, c, parent, d);
    }
    assert forall d :: d !in active;
    HasElement(active);
  }

  lemma DotsHaveNoPath(a: Label)
    requires a != []
    ensures PathOfDomain([[], []]) == [] && PathOfDomain([a] + [[], []]) == [a]
  {
    var dots: Domain := [[], []];
    var one: Domain := [[]];
    assert dots[1..] == one && one[1..] == [];
    assert NonEmpty(one) == [] && NonEmpty(dots) == [];
    assert ([a] + dots)[1..] == dots;
    assert NonEmpty([a] + dots) == [a];
  }
}
