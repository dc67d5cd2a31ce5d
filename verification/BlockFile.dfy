// A block list file as scripts/clean_blocklist.py reads and writes it: physical
// lines of tab-separated columns, of which only the last may lack its newline.
module BlockFile {
  import opened Prelude
  import opened Names

  type Column = seq<Byte>

  // A domain name split at its dots, and never empty; its labels may be.
  type Domain = seq<Label>

  // A physical line, without its tabs and its newline.
  datatype Line = Line(columns: seq<Column>, ended: bool)

  // What the script reads of a line, and the line itself, which it keeps as it is.
  datatype Row = Row(domain: Domain, ttl: Option<nat>, line: Line)

  // ------------------------------------------------------------------
  // Numbers
  // ------------------------------------------------------------------

  predicate IsDigits(c: Column) {
    c != [] && forall i :: 0 <= i < |c| ==> 48 <= c[i] <= 57
  }

  function Value(c: Column): nat
    requires forall i :: 0 <= i < |c| ==> 48 <= c[i] <= 57
  {
    if c == [] then 0 else 10 * Value(Front(c)) + (Last(c) - 48)
  }

  function Decimal(n: nat): (c: Column)
    ensures IsDigits(c)
  {
    if n < 10 then [48 + n] else Decimal(n / 10) + [48 + n % 10]
  }

  lemma {:induction false} ValueOfDecimal(n: nat)
    ensures Value(Decimal(n)) == n
  {
    if n < 10 {
      assert Front(Decimal(n)) == [];
    } else {
      ValueOfDecimal(n / 10);
      assert Front(Decimal(n)) == Decimal(n / 10);
    }
  }

  // ------------------------------------------------------------------
  // Reading
  // ------------------------------------------------------------------

  // The new format has the ttl in the seventh of at least eight columns.
  function TtlColumn(columns: seq<Column>): Option<nat> {
    if |columns| >= 8 && IsDigits(columns[6]) then Some(Value(columns[6])) else None
  }

  function DomainOf(text: Column): Domain {
    SplitDots(LowerAll(text))
  }

  // A line of fewer than two columns is passed over.
  function Parse(l: Line): Option<Row> {
    if |l.columns| < 2 then None else Some(Row(DomainOf(l.columns[1]), TtlColumn(l.columns), l))
  }

  // What is read of a line: its second column in lower case, and its seventh as a
  // number if it has eight columns and that one is digits.
  lemma ParseMeans(l: Line)
    ensures Parse(l).Some? <==> |l.columns| >= 2
    ensures Parse(l).Some? ==>
      var row := Parse(l).value;
      && row.line == l
      && AllAlike(Join(row.domain), l.columns[1]) && NoCapitals(Join(row.domain))
      && (row.ttl.Some? <==> |l.columns| >= 8 && l.columns[6] != [] && forall i :: 0 <= i < |l.columns[6]| ==> 48 <= l.columns[6][i] <= 57)
      && (row.ttl.Some? ==> row.ttl.value == Value(l.columns[6]))
  {
    if |l.columns| >= 2 {
      var s := LowerAll(l.columns[1]);
      JoinOfSplit(s, []);
      assert [] + s == s;
      LowerAllIs(l.columns[1], s);
      assert forall i :: 0 <= i < |s| ==> Alike(s[i], l.columns[1][i]);
    }
  }

  function RowsOf(lines: seq<Line>): seq<Row> {
    if lines == [] then []
    else match Parse(Last(lines))
      case None => RowsOf(Front(lines))
      case Some(row) => RowsOf(Front(lines)) + [row]
  }

  // Labels as they come out of a line: in lower case and without dots.
  ghost predicate Plain(d: Domain) {
    d != [] && forall i :: 0 <= i < |d| ==> DOT !in d[i] && LowerAll(d[i]) == d[i]
  }

  lemma {:induction false} SplitFromPlain(s: Name, open: Label)
    requires LowerAll(s) == s && DOT !in open && LowerAll(open) == open
    ensures Plain(SplitFrom(s, open))
    decreases |s|
  {
    if s != [] {
      assert LowerAll(s[1..]) == s[1..] by {
        forall i | 0 <= i < |s| - 1 ensures Lower(s[1..][i]) == s[1..][i] {
          assert LowerAll(s)[i + 1] == s[i + 1];
        }
      }
      assert Lower(s[0]) == s[0] by { assert LowerAll(s)[0] == s[0]; }
      if s[0] == DOT {
        SplitFromPlain(s[1..], []);
      } else {
        assert LowerAll(open + [s[0]]) == open + [s[0]] by {
          forall i | 0 <= i < |open| ensures Lower(open[i]) == open[i] {
            assert LowerAll(open)[i] == open[i];
          }
        }
        SplitFromPlain(s[1..], open + [s[0]]);
      }
    }
  }

  lemma DomainIsPlain(text: Column)
    ensures Plain(DomainOf(text))
  {
    assert LowerAll(LowerAll(text)) == LowerAll(text);
    SplitFromPlain(LowerAll(text), []);
  }

  lemma {:induction false} JoinIsLower(d: Domain)
    requires Plain(d)
    ensures LowerAll(Join(d)) == Join(d)
  {
    var last := d[|d| - 1];
    if |d| > 1 {
      JoinIsLower(d[..|d| - 1]);
      LowerConcat(Join(d[..|d| - 1]), [DOT]);
      LowerConcat(Join(d[..|d| - 1]) + [DOT], last);
    }
  }

  lemma LowerConcat(s: Name, t: Name)
    requires LowerAll(s) == s && LowerAll(t) == t
    ensures LowerAll(s + t) == s + t
  {
    forall i | 0 <= i < |s + t| ensures LowerAll(s + t)[i] == (s + t)[i] {
      if i < |s| { assert LowerAll(s)[i] == s[i]; } else { assert LowerAll(t)[i - |s|] == t[i - |s|]; }
    }
  }

  // A domain written out and read again.
  lemma DomainOfJoin(d: Domain)
    requires Plain(d)
    ensures DomainOf(Join(d)) == d
  {
    JoinIsLower(d);
    SplitOfJoin(d);
  }

  // ------------------------------------------------------------------
  // Writing
  // ------------------------------------------------------------------

  // writelines adds no newline: a line without one runs on into the next.
  function Glued(l: Line, m: Line): Line
    requires l.columns != [] && m.columns != []
  {
    Line(Front(l.columns) + [Last(l.columns) + m.columns[0]] + m.columns[1..], m.ended)
  }

  const TAB: Byte := 9
  const NEWLINE: Byte := 10

  // The bytes of the columns.
  function Tabbed(columns: seq<Column>): seq<Byte> {
    if columns == [] then []
    else if |columns| == 1 then columns[0]
    else columns[0] + [TAB] + Tabbed(columns[1..])
  }

  // The bytes of the line in the file.
  function Text(l: Line): seq<Byte> {
    Tabbed(l.columns) + (if l.ended then [NEWLINE] else [])
  }

  lemma {:induction false} TabbedGlued(front: seq<Column>, x: Column, y: Column, rest: seq<Column>)
    ensures Tabbed(front + [x + y] + rest) == Tabbed(front + [x]) + Tabbed([y] + rest)
  {
    if front == [] {
      assert [] + [x + y] + rest == [x + y] + rest && [] + [x] == [x];
      assert ([x + y] + rest)[1..] == rest && ([y] + rest)[1..] == rest;
      if rest != [] { assert x + y + [TAB] + Tabbed(rest) == x + (y + [TAB] + Tabbed(rest)); }
    } else {
      var head, tail := front[0], front[1..];
      assert (front + [x + y] + rest)[1..] == tail + [x + y] + rest && (front + [x])[1..] == tail + [x];
      TabbedGlued(tail, x, y, rest);
      assert head + [TAB] + (Tabbed(tail + [x]) + Tabbed([y] + rest)) == head + [TAB] + Tabbed(tail + [x]) + Tabbed([y] + rest);
    }
  }

  // The two lines' bytes one after the other.
  lemma GluedText(l: Line, m: Line)
    requires l.columns != [] && m.columns != [] && !l.ended
    ensures Text(Glued(l, m)) == Text(l) + Text(m)
  {
    var front, x, y, rest := Front(l.columns), Last(l.columns), m.columns[0], m.columns[1..];
    TabbedGlued(front, x, y, rest);
    assert front + [x] == l.columns && [y] + rest == m.columns;
    assert Text(l) == Tabbed(l.columns);
  }

  function FileText(lines: seq<Line>): seq<Byte> {
    if lines == [] then [] else Text(lines[0]) + FileText(lines[1..])
  }

  ghost predicate AllColumns(lines: seq<Line>) {
    forall i :: 0 <= i < |lines| ==> lines[i].columns != []
  }

  // The physical lines of a file the given lines are written to.
  function Joined(lines: seq<Line>): (r: seq<Line>)
    requires AllColumns(lines)
    ensures |r| <= |lines| && AllColumns(r)
    decreases |lines|
  {
    if |lines| <= 1 then lines
    else if lines[0].ended then [lines[0]] + Joined(lines[1..])
    else Joined([Glued(lines[0], lines[1])] + lines[2..])
  }

  lemma FileTextCons(l: Line, rest: seq<Line>)
    ensures FileText([l] + rest) == Text(l) + FileText(rest)
    ensures WellEnded([l] + rest) <== l.ended && WellEnded(rest)
  {
    var all := [l] + rest;
    assert all[1..] == rest;
    if l.ended && WellEnded(rest) {
      forall i | 0 <= i < |all| - 1 ensures all[i].ended {
        if i > 0 { assert all[i] == rest[i - 1]; }
      }
    }
  }

  // Nothing but the written bytes, one line after the other.
  lemma {:induction false} JoinedText(lines: seq<Line>)
    requires AllColumns(lines)
    ensures FileText(Joined(lines)) == FileText(lines) && WellEnded(Joined(lines))
    decreases |lines|
  {
    if |lines| > 1 {
      hide Text, FileText, WellEnded, Glued;
      var l := lines[0];
      FileTextCons(l, lines[1..]);
      assert lines == [l] + lines[1..];
      if l.ended {
        JoinedText(lines[1..]);
        FileTextCons(l, Joined(lines[1..]));
      } else {
        var m, rest := lines[1], lines[2..];
        assert lines[1..] == [m] + rest;
        JoinedText([Glued(l, m)] + rest);
        GluedText(l, m);
        FileTextCons(m, rest);
        FileTextCons(Glued(l, m), rest);
        assert Text(l) + Text(m) + FileText(rest) == Text(l) + (Text(m) + FileText(rest));
      }
    }
  }

  // Every line but the last has its newline.
  predicate WellEnded(lines: seq<Line>) {
    forall i :: 0 <= i < |lines| - 1 ==> lines[i].ended
  }

  // The file holds the lines that were written exactly if each of them but the
  // last has its newline.
  lemma {:induction false} JoinedIff(lines: seq<Line>)
    requires AllColumns(lines)
    ensures Joined(lines) == lines <==> WellEnded(lines)
    decreases |lines|
  {
    if |lines| > 1 {
      if lines[0].ended {
        JoinedIff(lines[1..]);
        assert lines == [lines[0]] + lines[1..];
        assert Joined(lines) == lines <==> Joined(lines[1..]) == lines[1..];
        WellEndedTail(lines);
      } else {
        assert |Joined(lines)| < |lines|;
      }
    }
  }

  lemma WellEndedTail(lines: seq<Line>)
    requires |lines| > 1 && lines[0].ended
    ensures WellEnded(lines) <==> WellEnded(lines[1..])
  {
    if WellEnded(lines[1..]) {
      forall i | 0 <= i < |lines| - 1 ensures lines[i].ended {
        if i > 0 { assert lines[1..][i - 1].ended; }
      }
    }
  }

  // ------------------------------------------------------------------
  // What a file that was not well ended still says
  // ------------------------------------------------------------------

  // The line starts where it was written: it is the first, or the one before has
  // its newline.
  predicate Starts(lines: seq<Line>, i: nat)
    requires i < |lines|
  {
    i == 0 || lines[i - 1].ended
  }

  // The line with all that runs on into it.
  function RunOn(lines: seq<Line>, i: nat): (r: Line)
    requires i < |lines| && AllColumns(lines)
    ensures r.columns != []
    decreases |lines| - i
  {
    if lines[i].ended || i + 1 == |lines| then lines[i] else Glued(lines[i], RunOn(lines, i + 1))
  }

  predicate Says(l: Line, d: Domain) {
    |l.columns| >= 2 && DomainOf(l.columns[1]) == d
  }

  // Where a column follows the domain, what runs on changes no domain.
  lemma RunOnSays(lines: seq<Line>, i: nat, d: Domain)
    requires i < |lines| && AllColumns(lines) && (lines[i].ended || |lines[i].columns| >= 3)
    ensures Says(RunOn(lines, i), d) <==> Says(lines[i], d)
  {
  }

  ghost predicate Lists(lines: seq<Line>, d: Domain) {
    exists i {:trigger lines[i]} :: 0 <= i < |lines| && Says(lines[i], d)
  }

  ghost predicate StillLists(lines: seq<Line>, d: Domain)
    requires AllColumns(lines)
  {
    exists i {:trigger Starts(lines, i)} :: 0 <= i < |lines| && Starts(lines, i) && Says(RunOn(lines, i), d)
  }

  // Exactly the lines that start where they were written can be read again, each
  // with what runs on into it; a line swallowed by the one before is lost.
  lemma {:induction false} JoinedLists(lines: seq<Line>, d: Domain)
    requires AllColumns(lines)
    ensures Lists(Joined(lines), d) <==> StillLists(lines, d)
    decreases |lines|
  {
    if |lines| == 1 {
      assert Starts(lines, 0);
    } else if |lines| > 1 {
      hide Says;
      if lines[0].ended {
        JoinedLists(lines[1..], d);
        FirstLists(lines[0], Joined(lines[1..]), d);
        StillListsTail(lines, d);
      } else {
        JoinedLists([Glued(lines[0], lines[1])] + lines[2..], d);
        StillListsGlued(lines, d);
      }
    }
  }

  lemma FirstLists(l: Line, rest: seq<Line>, d: Domain)
    ensures Lists([l] + rest, d) <==> Says(l, d) || Lists(rest, d)
  {
    hide Says;
    if Lists(rest, d) {
      var i :| 0 <= i < |rest| && Says(rest[i], d);
      assert ([l] + rest)[i + 1] == rest[i];
    }
    if Says(l, d) {
      assert ([l] + rest)[0] == l;
    }
  }

  // The lines from n on, and what runs on into them.
  lemma {:induction false} RunOnShift(lines: seq<Line>, rest: seq<Line>, n: nat, m: nat, i: nat)
    requires AllColumns(lines) && AllColumns(rest) && m <= i < |rest| && n + |rest| == m + |lines|
    requires forall j :: m <= j < |rest| ==> n - m + j >= 0 && rest[j] == lines[n - m + j]
    ensures n - m + i >= 0 && RunOn(rest, i) == RunOn(lines, n - m + i)
    decreases |rest| - i
  {
    if i + 1 < |rest| { RunOnShift(lines, rest, n, m, i + 1); }
  }

  lemma GluedAssociates(k: Line, l: Line, m: Line)
    requires k.columns != [] && l.columns != [] && m.columns != []
    ensures Glued(Glued(k, l), m) == Glued(k, Glued(l, m))
  {
    if |l.columns| == 1 {
      assert l.columns == [l.columns[0]] && l.columns[1..] == [] && Front(l.columns) == [];
      assert Front(Glued(k, l).columns) == Front(k.columns);
      assert Glued(l, m).columns[1..] == m.columns[1..];
      assert Last(k.columns) + l.columns[0] + m.columns[0] == Last(k.columns) + (l.columns[0] + m.columns[0]);
    } else {
      assert l.columns == [l.columns[0]] + l.columns[1..];
      assert Front(Glued(k, l).columns) == Front(k.columns) + [Last(k.columns) + l.columns[0]] + Front(l.columns)[1..];
    }
  }

  lemma StillListsTail(lines: seq<Line>, d: Domain)
    requires |lines| > 1 && lines[0].ended && AllColumns(lines)
    ensures StillLists(lines, d) <==> Says(lines[0], d) || StillLists(lines[1..], d)
  {
    hide Says;
    var rest := lines[1..];
    assert Starts(lines, 0) && RunOn(lines, 0) == lines[0];
    forall i: nat | i < |rest| ensures Starts(lines, i + 1) <==> Starts(rest, i) {
    }
    forall i: nat | i < |rest| ensures RunOn(rest, i) == RunOn(lines, i + 1) {
      RunOnShift(lines, rest, 1, 0, i);
    }
    if StillLists(lines, d) {
      var i :| 0 <= i < |lines| && Starts(lines, i) && Says(RunOn(lines, i), d);
      if i > 0 { assert Starts(rest, i - 1) && RunOn(rest, i - 1) == RunOn(lines, i); }
    }
    if StillLists(rest, d) {
      var i :| 0 <= i < |rest| && Starts(rest, i) && Says(RunOn(rest, i), d);
      assert Starts(lines, i + 1);
    }
  }

  lemma RunOnGlued(lines: seq<Line>)
    requires |lines| > 1 && !lines[0].ended && AllColumns(lines)
    ensures RunOn([Glued(lines[0], lines[1])] + lines[2..], 0) == RunOn(lines, 0)
  {
    var less := [Glued(lines[0], lines[1])] + lines[2..];
    if !lines[1].ended && |lines| > 2 {
      RunOnShift(lines, less, 2, 1, 1);
      GluedAssociates(lines[0], lines[1], RunOn(lines, 2));
    }
  }

  lemma StillListsGlued(lines: seq<Line>, d: Domain)
    requires |lines| > 1 && !lines[0].ended && AllColumns(lines)
    ensures var less := [Glued(lines[0], lines[1])] + lines[2..];
      AllColumns(less) && (StillLists(less, d) <==> StillLists(lines, d))
  {
    hide Says;
    var less := [Glued(lines[0], lines[1])] + lines[2..];
    RunOnGlued(lines);
    forall i: nat | 0 < i < |less| ensures RunOn(less, i) == RunOn(lines, i + 1) && (Starts(less, i) <==> Starts(lines, i + 1)) {
      RunOnShift(lines, less, 2, 1, i);
      if i > 1 { assert less[i - 1] == lines[i]; }
    }
    assert Starts(lines, 0) && Starts(less, 0) && !Starts(lines, 1);
    if StillLists(lines, d) {
      var i :| 0 <= i < |lines| && Starts(lines, i) && Says(RunOn(lines, i), d);
      if i > 1 { assert Starts(less, i - 1) && RunOn(less, i - 1) == RunOn(lines, i); }
    }
    if StillLists(less, d) {
      var i :| 0 <= i < |less| && Starts(less, i) && Says(RunOn(less, i), d);
      if i > 0 { assert Starts(lines, i + 1); }
    }
  }

  ghost predicate HasRow(rows: seq<Row>, d: Domain) {
    exists i :: 0 <= i < |rows| && rows[i].domain == d
  }

  lemma HasRowSnoc(rows: seq<Row>, r: Row, d: Domain)
    ensures HasRow(rows + [r], d) <==> HasRow(rows, d) || r.domain == d
  {
    var all := rows + [r];
    assert all[|rows|] == r;
    if HasRow(rows, d) {
      var i :| 0 <= i < |rows| && rows[i].domain == d;
      assert all[i] == rows[i];
    }
  }

  lemma ListsSnoc(lines: seq<Line>, l: Line, d: Domain)
    ensures Lists(lines + [l], d) <==> Lists(lines, d) || Says(l, d)
  {
    var all := lines + [l];
    assert all[|lines|] == l;
    if Lists(lines, d) {
      var i :| 0 <= i < |lines| && Says(lines[i], d);
      assert all[i] == lines[i];
    }
  }

  // The domains of the rows are the domains the lines name.
  lemma {:induction false} RowsName(lines: seq<Line>, d: Domain)
    ensures HasRow(RowsOf(lines), d) <==> Lists(lines, d)
  {
    if lines != [] {
      RowsName(Front(lines), d);
      ListsSnoc(Front(lines), Last(lines), d);
      assert lines == Front(lines) + [Last(lines)];
      if Parse(Last(lines)).Some? { HasRowSnoc(RowsOf(Front(lines)), Parse(Last(lines)).value, d); }
    }
  }

  // ------------------------------------------------------------------
  // Rows and their lines
  // ------------------------------------------------------------------

  function LinesOf(rows: seq<Row>): (lines: seq<Line>)
    ensures |lines| == |rows| && forall i :: 0 <= i < |rows| ==> lines[i] == rows[i].line
  {
    seq(|rows|, i requires 0 <= i < |rows| => rows[i].line)
  }

  ghost predicate FromLines(rows: seq<Row>) {
    forall i :: 0 <= i < |rows| ==> Parse(rows[i].line) == Some(rows[i])
  }

  // Reading the rows' own lines gives the rows.
  lemma {:induction false} ReadAgain(rows: seq<Row>)
    requires FromLines(rows)
    ensures RowsOf(LinesOf(rows)) == rows && AllColumns(LinesOf(rows))
  {
    if rows != [] {
      ReadAgain(Front(rows));
      assert Front(LinesOf(rows)) == LinesOf(Front(rows));
    }
  }

  lemma {:induction false} RowsFromLines(lines: seq<Line>)
    ensures FromLines(RowsOf(lines))
    ensures forall i :: 0 <= i < |RowsOf(lines)| ==> RowsOf(lines)[i].line in lines && Plain(RowsOf(lines)[i].domain)
  {
    if lines != [] {
      RowsFromLines(Front(lines));
      assert lines == Front(lines) + [Last(lines)];
      if Parse(Last(lines)).Some? { DomainIsPlain(Last(lines).columns[1]); }
    }
  }
}
