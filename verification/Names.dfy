// split_domain_rtl: from a dotted name to the labels the tree is walked with.
module Names {
  import opened Prelude

  function Lower(c: Byte): Byte {
    if 65 <= c <= 90 then c + 32 else c
  }

  function LowerAll(s: Name): (r: Name)
    ensures |r| == |s|
    ensures forall i :: 0 <= i < |s| ==> r[i] == Lower(s[i])
  {
    seq(|s|, i requires 0 <= i < |s| => Lower(s[i]))
  }

  // The same byte, or the same letter in the other case.
  predicate Alike(x: Byte, y: Byte) {
    x == y || (65 <= x <= 90 && y == x + 32) || (65 <= y <= 90 && x == y + 32)
  }

  predicate AllAlike(s: Name, t: Name) {
    |s| == |t| && forall i :: 0 <= i < |s| ==> Alike(s[i], t[i])
  }

  predicate NoCapitals(s: Name) {
    forall i :: 0 <= i < |s| ==> !(65 <= s[i] <= 90)
  }

  // Lowering keeps every letter and leaves no capital, and that is all it can be.
  lemma LowerAllIs(s: Name, t: Name)
    ensures t == LowerAll(s) <==> AllAlike(s, t) && NoCapitals(t)
  {
    if AllAlike(s, t) && NoCapitals(t) {
      forall i | 0 <= i < |s| ensures t[i] == LowerAll(s)[i] {
        assert Alike(s[i], t[i]);
      }
    }
  }

  lemma AlikeIff(s: Name, t: Name)
    ensures LowerAll(s) == LowerAll(t) <==> AllAlike(s, t)
  {
    if AllAlike(s, t) {
      forall i | 0 <= i < |s| ensures LowerAll(s)[i] == LowerAll(t)[i] {
        assert Alike(s[i], t[i]);
      }
    } else if LowerAll(s) == LowerAll(t) {
      forall i | 0 <= i < |s| ensures Alike(s[i], t[i]) {
        assert LowerAll(s)[i] == LowerAll(t)[i];
      }
    }
  }

  // ------------------------------------------------------------------
  // Specification: split at every dot, drop the empty pieces, reverse
  // ------------------------------------------------------------------

  function SplitDots(s: Name): seq<Label> {
    SplitFrom(s, [])
  }

  // The pieces of s when the first of them has already begun with `open`.
  function SplitFrom(s: Name, open: Label): (r: seq<Label>)
    ensures r != []
  {
    if s == [] then [open]
    else if s[0] == DOT then [open] + SplitFrom(s[1..], [])
    else SplitFrom(s[1..], open + [s[0]])
  }

  function NonEmpty(ls: seq<Label>): seq<Label> {
    if ls == [] then []
    else if ls[0] == [] then NonEmpty(ls[1..])
    else [ls[0]] + NonEmpty(ls[1..])
  }

  function PathOf(s: Name): Path {
    Reverse(NonEmpty(SplitDots(LowerAll(s))))
  }

  // The dotted form of a list of labels, leftmost first.
  function Join(ls: seq<Label>): Name {
    if ls == [] then []
    else if |ls| == 1 then ls[0]
    else Join(ls[..|ls| - 1]) + [DOT] + ls[|ls| - 1]
  }

  lemma {:induction false} SplitOfJoin(ls: seq<Label>)
    requires ls != [] && forall i :: 0 <= i < |ls| ==> DOT !in ls[i]
    ensures SplitDots(Join(ls)) == ls
  {
    var last := ls[|ls| - 1];
    if |ls| == 1 {
      SplitFromDotFree(last, []);
      assert [] + last == last;
      assert ls == [last];
    } else {
      var front := ls[..|ls| - 1];
      SplitOfJoin(front);
      SplitFromAppend(Join(front), last, []);
      assert ls == front + [last];
    }
  }

  lemma {:induction false} JoinCons(l: Label, ls: seq<Label>)
    requires ls != []
    ensures Join([l] + ls) == l + [DOT] + Join(ls)
  {
    var all, last := [l] + ls, ls[|ls| - 1];
    assert all[..|all| - 1] == [l] + ls[..|ls| - 1];
    if |ls| == 1 {
      assert all[..|all| - 1] == [l];
    } else {
      JoinCons(l, ls[..|ls| - 1]);
      assert l + [DOT] + Join(ls[..|ls| - 1]) + [DOT] + last == l + [DOT] + (Join(ls[..|ls| - 1]) + [DOT] + last);
    }
  }

  lemma Reglued(open: Label, s: Name)
    ensures s != [] ==> open + [s[0]] + s[1..] == open + s
    ensures s == [] ==> open + s == open
    ensures [] + s == s
  {
  }

  lemma OneLabel(l: Label)
    ensures Join([l]) == l
  {
  }

  lemma {:induction false} JoinOfSplit(s: Name, open: Label)
    ensures Join(SplitFrom(s, open)) == open + s
    decreases |s|
  {
    hide Join;
    Reglued(open, s);
    if s == [] {
      OneLabel(open);
    } else if s[0] == DOT {
      var rest := SplitFrom(s[1..], []);
      JoinOfSplit(s[1..], []);
      Reglued([], s[1..]);
      JoinCons(open, rest);
    } else {
      JoinOfSplit(s[1..], open + [s[0]]);
    }
  }

  // ------------------------------------------------------------------
  // The backward scan
  // ------------------------------------------------------------------

  // Where the label that ends at e starts.
  function LabelStart(s: Name, e: nat): (b: nat)
    requires e <= |s|
    ensures b <= e
    ensures forall i :: b <= i < e ==> s[i] != DOT
    ensures b > 0 ==> s[b - 1] == DOT
  {
    if e == 0 || s[e - 1] == DOT then e else LabelStart(s, e - 1)
  }

  function LabelsRtl(s: Name, e: nat): (ls: Path)
    requires e <= |s|
    ensures 2 * |ls| <= e + 1
    decreases e
  {
    if e == 0 then []
    else
      var b := LabelStart(s, e);
      var rest := if b == 0 then [] else LabelsRtl(s, b - 1);
      if b < e then [s[b..e]] + rest else rest
  }

  lemma {:induction false} SplitFromDotFree(s: Name, open: Label)
    requires DOT !in s
    ensures SplitFrom(s, open) == [open + s]
  {
    if s == [] {
      assert open + s == open;
    } else {
      SplitFromDotFree(s[1..], open + [s[0]]);
      assert open + [s[0]] + s[1..] == open + s;
    }
  }

  lemma {:induction false} SplitFromAppend(s: Name, t: Name, open: Label)
    requires DOT !in t
    ensures SplitFrom(s + [DOT] + t, open) == SplitFrom(s, open) + [t]
  {
    var u := s + [DOT] + t;
    if s == [] {
      assert u[1..] == t;
      SplitFromDotFree(t, []);
      assert [] + t == t;
    } else {
      assert u[1..] == s[1..] + [DOT] + t;
      if s[0] == DOT {
        SplitFromAppend(s[1..], t, []);
      } else {
        SplitFromAppend(s[1..], t, open + [s[0]]);
      }
    }
  }

  lemma {:induction false} NonEmptyAppend(ls: seq<Label>, l: Label)
    ensures NonEmpty(ls + [l]) == if l == [] then NonEmpty(ls) else NonEmpty(ls) + [l]
  {
    if ls == [] {
      assert ls + [l] == [l];
    } else {
      assert (ls + [l])[1..] == ls[1..] + [l];
      NonEmptyAppend(ls[1..], l);
    }
  }

  lemma {:induction false} ReverseAppend<T>(s: seq<T>, x: T)
    ensures Reverse(s + [x]) == [x] + Reverse(s)
  {
  }

  // Scanning from the end finds exactly the non-empty pieces, last one first.
  lemma {:induction false} LabelsRtlIsSplit(s: Name, e: nat)
    requires e <= |s|
    ensures LabelsRtl(s, e) == Reverse(NonEmpty(SplitDots(s[..e])))
    decreases e
  {
    if e == 0 {
      assert s[..e] == [];
      var one: seq<Label> := [[]];
      assert one[1..] == [];
      assert SplitDots([]) == one;
    } else {
      var b := LabelStart(s, e);
      var last := s[b..e];
      if b == 0 {
        assert s[..e] == last;
        SplitFromDotFree(last, []);
        assert [] + last == last;
        assert SplitDots(s[..e]) == [last];
        NonEmptyAppend([], last);
        assert [] + [last] == [last];
        ReverseAppend([], last);
      } else {
        assert s[..e] == s[..b - 1] + [DOT] + last;
        SplitFromAppend(s[..b - 1], last, []);
        LabelsRtlIsSplit(s, b - 1);
        NonEmptyAppend(SplitDots(s[..b - 1]), last);
        if last != [] {
          ReverseAppend(NonEmpty(SplitDots(s[..b - 1])), last);
        }
      }
    }
  }

  const MAX_LABELS: nat := 128
  const LABEL_BUF: nat := 512

  function Capped(ls: Path): Path {
    if |ls| <= MAX_LABELS then ls else ls[..MAX_LABELS]
  }

  // The path a C string is stored under; none for the empty string and for one
  // that does not fit the label buffer.
  function TreePath(domain: Name): Path {
    if domain == [] || |domain| >= LABEL_BUF then [] else Capped(PathOf(domain))
  }

  // For every name of at most 256 bytes the cap of 128 labels never drops one.
  lemma CapNeverBites(domain: Name)
    requires |domain| <= 256
    ensures TreePath(domain) == PathOf(domain)
  {
    var s := LowerAll(domain);
    LabelsRtlIsSplit(s, |s|);
    assert s[..|s|] == s;
    assert 2 * |LabelsRtl(s, |s|)| <= 257;
    if domain == [] { assert s == []; }
  }

  // What the labels of a path take in a dotted name, with a dot each.
  function Span(p: Path): nat {
    if p == [] then 0 else |p[0]| + 1 + Span(p[1..])
  }

  lemma SpanConcat(l: Label, first: Path, rest: Path)
    requires first == if l == [] then [] else [l]
    ensures Span(first + rest) <= |l| + 1 + Span(rest)
  {
    if l == [] {
      assert first + rest == rest;
    } else {
      assert (first + rest)[1..] == rest;
    }
  }

  lemma {:induction false} SpanOfRtl(s: Name, e: nat)
    requires e <= |s|
    ensures Span(LabelsRtl(s, e)) <= e + 1
    decreases e
  {
    hide LabelsRtl, Span;
    if e == 0 {
      NoSpan(s);
      return;
    }
    UnrollRtl(s, e);
    var b := LabelStart(s, e);
    var l := s[b..e];
    SpanConcat(l, if b < e then [l] else [], if b == 0 then [] else LabelsRtl(s, b - 1));
    if b > 0 { SpanOfRtl(s, b - 1); } else { NoSpan(s); }
  }

  lemma NoSpan(s: Name)
    ensures Span(LabelsRtl(s, 0)) == Span([]) == 0
  {
  }

  lemma {:induction false} SpanPrefix(p: Path, q: Path)
    requires p <= q
    ensures Span(p) <= Span(q)
  {
    if p != [] { SpanPrefix(p[1..], q[1..]); }
  }

  lemma PathPrefix(domain: Name)
    ensures TreePath(domain) <= PathOf(domain)
  {
  }

  // A name is long enough for the labels of its path.
  lemma TreePathFits(domain: Name)
    ensures Span(TreePath(domain)) <= |domain| + 1
  {
    hide LabelsRtl, Span, SplitFrom, NonEmpty;
    PathPrefix(domain);
    var s := LowerAll(domain);
    LabelsRtlIsSplit(s, |s|);
    assert s[..|s|] == s;
    SpanOfRtl(s, |s|);
    SpanPrefix(TreePath(domain), PathOf(domain));
  }

  // Names that differ in the case of letters only have the same place in the tree.
  lemma AlikeSamePath(s: Name, t: Name)
    requires AllAlike(s, t)
    ensures TreePath(s) == TreePath(t)
  {
    AlikeIff(s, t);
  }

  // And the labels there have no capitals.
  lemma {:induction false} PiecesNoCapitals(s: Name, e: nat)
    requires e <= |s| && NoCapitals(s)
    ensures forall i :: 0 <= i < |LabelsRtl(s, e)| ==> NoCapitals(LabelsRtl(s, e)[i])
    decreases e
  {
    if e > 0 {
      UnrollRtl(s, e);
      var b := LabelStart(s, e);
      if b > 0 { PiecesNoCapitals(s, b - 1); }
    }
  }

  lemma PathHasNoCapitals(domain: Name)
    ensures forall i :: 0 <= i < |TreePath(domain)| ==> NoCapitals(TreePath(domain)[i])
  {
    var s := LowerAll(domain);
    LowerAllIs(domain, s);
    PiecesNoCapitals(s, |s|);
    LabelsRtlIsSplit(s, |s|);
    assert s[..|s|] == s;
  }

  method LowerInto(domain: Name, labelBuf: array<Byte>)
    requires |domain| <= labelBuf.Length
    modifies labelBuf
    ensures forall j :: 0 <= j < |domain| ==> labelBuf[j] == LowerAll(domain)[j]
  {
    for i := 0 to |domain|
      invariant forall j :: 0 <= j < i ==> labelBuf[j] == Lower(domain[j])
    {
      var c := domain[i];
      labelBuf[i] := if 65 <= c <= 90 then c + 32 else c;
    }
  }

  // The inner loop: from the end of a label back to its start.
  method ScanBack(labelBuf: array<Byte>, labelEnd: nat, ghost s: Name) returns (labelStart: nat, text: Label)
    requires 0 < labelEnd <= |s| <= labelBuf.Length
    requires forall j :: 0 <= j < |s| ==> labelBuf[j] == s[j]
    ensures labelStart == LabelStart(s, labelEnd)
    ensures text == s[labelStart..labelEnd]
  {
    labelStart := labelEnd - 1;
    while labelStart > 0 && labelBuf[labelStart] != DOT
      invariant labelStart < labelEnd
      invariant LabelStart(s, labelEnd) == LabelStart(s, labelStart + 1)
    {
      labelStart := labelStart - 1;
    }
    if labelBuf[labelStart] == DOT {
      labelStart := labelStart + 1;
    }
    text := labelBuf[labelStart..labelEnd];
  }

  function Add(labels: Path, text: Label): Path {
    if text == [] then labels else labels + [text]
  }

  // The scan with what it has collected so far, capped as the code caps it.
  function Scan(s: Name, e: nat, labels: Path): Path
    requires e <= |s|
    decreases e
  {
    if e == 0 || |labels| >= MAX_LABELS then labels
    else
      var b := LabelStart(s, e);
      var more := Add(labels, s[b..e]);
      if b == 0 then more else Scan(s, b - 1, more)
  }

  lemma AppendShift<T>(a: seq<T>, x: T, r: seq<T>)
    ensures a + ([x] + r) == (a + [x]) + r
  {
  }

  lemma CappedFull(labels: Path, rest: Path)
    requires |labels| == MAX_LABELS
    ensures Capped(labels + rest) == labels
  {
    assert (labels + rest)[..MAX_LABELS] == labels;
  }

  lemma UnrollRtl(s: Name, e: nat)
    requires 0 < e <= |s|
    ensures var b := LabelStart(s, e);
      LabelsRtl(s, e) == (if b < e then [s[b..e]] else []) + (if b == 0 then [] else LabelsRtl(s, b - 1))
  {
  }

  // One round moves a label from what is left to what is collected.
  lemma RoundMoves(s: Name, e: nat, labels: Path)
    requires 0 < e <= |s|
    ensures var b := LabelStart(s, e);
      labels + LabelsRtl(s, e) == Add(labels, s[b..e]) + (if b == 0 then [] else LabelsRtl(s, b - 1))
  {
    hide LabelsRtl, LabelStart;
    UnrollRtl(s, e);
    var b := LabelStart(s, e);
    AppendShift(labels, s[b..e], if b == 0 then [] else LabelsRtl(s, b - 1));
  }

  lemma ScanRound(s: Name, e: nat, labels: Path)
    requires e <= |s|
    ensures e == 0 || |labels| >= MAX_LABELS ==> Scan(s, e, labels) == labels
    ensures e > 0 && |labels| < MAX_LABELS ==>
      var b := LabelStart(s, e);
      Scan(s, e, labels) == if b == 0 then Add(labels, s[b..e]) else Scan(s, b - 1, Add(labels, s[b..e]))
  {
  }

  lemma {:induction false} ScanIsCapped(s: Name, e: nat, labels: Path)
    requires e <= |s| && |labels| <= MAX_LABELS
    ensures Scan(s, e, labels) == Capped(labels + LabelsRtl(s, e))
    decreases e
  {
    ScanRound(s, e, labels);
    if e == 0 {
      assert labels + [] == labels;
    } else if |labels| == MAX_LABELS {
      CappedFull(labels, LabelsRtl(s, e));
    } else {
      hide LabelsRtl, Capped, Scan;
      RoundMoves(s, e, labels);
      var b := LabelStart(s, e);
      var more := Add(labels, s[b..e]);
      if b == 0 {
        assert more + [] == more;
        CappedShort(more);
      } else {
        ScanIsCapped(s, b - 1, more);
      }
    }
  }

  lemma CappedShort(labels: Path)
    requires |labels| <= MAX_LABELS
    ensures Capped(labels) == labels
  {
  }

  // The outer loop: one label per round until the buffer or the cap is reached.
  method ScanLabels(labelBuf: array<Byte>, len: nat, ghost s: Name) returns (labels: Path)
    requires len == |s| <= labelBuf.Length && forall j :: 0 <= j < len ==> labelBuf[j] == s[j]
    ensures labels == Scan(s, len, [])
  {
    hide LabelsRtl, SplitFrom, NonEmpty, Join, LowerAll;
    labels := [];
    var labelEnd := len;
    while labelEnd > 0 && |labels| < MAX_LABELS
      invariant 0 <= labelEnd <= len
      invariant Scan(s, labelEnd, labels) == Scan(s, len, [])
      decreases labelEnd
    {
      var labelStart, text := ScanBack(labelBuf, labelEnd, s);
      if |text| > 0 {
        labels := labels + [text];
      }
      if labelStart == 0 {
        labelEnd := 0;
        break;
      }
      labelEnd := labelStart - 1;
    }
  }

  method SplitDomainRtl(domain: Name) returns (count: int, labels: Path)
    ensures count == if domain == [] || |domain| >= LABEL_BUF then -1 else |labels|
    ensures labels == TreePath(domain) && forall i :: 0 <= i < |labels| ==> NoCapitals(labels[i])
    ensures domain != [] && |domain| < 512 ==> labels == if |PathOf(domain)| <= 128 then PathOf(domain) else PathOf(domain)[..128]
  {
    PathHasNoCapitals(domain);
    if domain == [] {
      return -1, [];
    }
    var len := |domain|;
    if len >= LABEL_BUF {
      return -1, [];
    }
    var labelBuf := new Byte[LABEL_BUF];
    LowerInto(domain, labelBuf);
    ghost var s := LowerAll(domain);
    labels := ScanLabels(labelBuf, len, s);
    ScanIsCapped(s, len, []);
    assert [] + LabelsRtl(s, len) == LabelsRtl(s, len);
    LabelsRtlIsSplit(s, len);
    assert s[..len] == s;
    count := |labels|;
  }
}
