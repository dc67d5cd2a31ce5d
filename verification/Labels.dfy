// The order on labels that sorts a node's children and drives binary search.
module Labels {
  import opened Prelude

  // memcmp: the sign of the first differing byte, compared unsigned.
  function MemCmp(a: seq<Byte>, b: seq<Byte>, n: nat): int
    requires n <= |a| && n <= |b|
  {
    if n == 0 then 0
    else if a[0] != b[0] then a[0] - b[0]
    else MemCmp(a[1..], b[1..], n - 1)
  }

  function LabelCompare(a: Label, b: Label): int {
    var minLen := MinNat(|a|, |b|);
    var cmp := MemCmp(a, b, minLen);
    if cmp != 0 then cmp
    else if |a| < |b| then -1
    else if |a| > |b| then 1
    else 0
  }

  predicate Less(a: Label, b: Label) {
    LabelCompare(a, b) < 0
  }

  // A common first byte does not influence the comparison.
  lemma CompareTail(a: Label, b: Label)
    requires a != [] && b != [] && a[0] == b[0]
    ensures LabelCompare(a, b) == LabelCompare(a[1..], b[1..])
  {
  }

  lemma {:induction false} CompareZero(a: Label, b: Label)
    ensures LabelCompare(a, b) == 0 <==> a == b
  {
    if a != [] && b != [] && a[0] == b[0] {
      CompareTail(a, b);
      CompareZero(a[1..], b[1..]);
      assert a == [a[0]] + a[1..] && b == [b[0]] + b[1..];
    }
  }

  lemma {:induction false} CompareFlip(a: Label, b: Label)
    ensures LabelCompare(a, b) < 0 <==> LabelCompare(b, a) > 0
  {
    if a != [] && b != [] && a[0] == b[0] {
      CompareTail(a, b);
      CompareTail(b, a);
      CompareFlip(a[1..], b[1..]);
    }
  }

  lemma {:induction false} LessTransitive(a: Label, b: Label, c: Label)
    requires Less(a, b) && Less(b, c)
    ensures Less(a, c)
  {
    if a != [] && b != [] && c != [] {
      if a[0] == b[0] { CompareTail(a, b); }
      if b[0] == c[0] { CompareTail(b, c); }
      if a[0] == b[0] && b[0] == c[0] {
        CompareTail(a, c);
        LessTransitive(a[1..], b[1..], c[1..]);
      }
    }
  }

  // The first differing byte decides; a label comes after every proper prefix.
  lemma {:induction false} FirstDifference(a: Label, b: Label, i: nat)
    requires i <= |a| && i <= |b| && a[..i] == b[..i]
    ensures i < |a| && i < |b| && a[i] != b[i] ==> (Less(a, b) <==> a[i] < b[i])
    ensures i == |a| < |b| ==> Less(a, b)
  {
    if i > 0 {
      assert a[..i][0] == b[..i][0];
      CompareTail(a, b);
      assert a[1..][..i - 1] == a[..i][1..] && b[1..][..i - 1] == b[..i][1..];
      FirstDifference(a[1..], b[1..], i - 1);
    }
  }

  // label_compare is a strict total order whose zero is equality.
  lemma LabelOrder(a: Label, b: Label, c: Label)
    ensures LabelCompare(a, b) == 0 <==> a == b
    ensures Less(a, b) || a == b || Less(b, a)
    ensures !(Less(a, b) && Less(b, a))
    ensures Less(a, b) && Less(b, c) ==> Less(a, c)
  {
    CompareZero(a, b);
    CompareFlip(a, b);
    CompareFlip(b, a);
    if Less(a, b) && Less(b, c) { LessTransitive(a, b, c); }
  }

  ghost predicate Ascending(s: seq<Label>) {
    forall i, j :: 0 <= i < j < |s| ==> Less(s[i], s[j])
  }

  lemma AscendingIsDistinct(s: seq<Label>)
    requires Ascending(s)
    ensures Distinct(s)
  {
    forall i, j | 0 <= i < j < |s| ensures s[i] != s[j] {
      CompareZero(s[i], s[j]);
    }
  }

  // A strictly ascending sequence is determined by its set of elements.
  lemma {:induction false} AscendingUnique(s: seq<Label>, t: seq<Label>)
    requires Ascending(s) && Ascending(t)
    requires forall x :: x in s <==> x in t
    ensures s == t
  {
    assert s != [] ==> s[0] in s;
    assert t != [] ==> t[0] in t;
    if s != [] {
      HeadIsLeast(s, t);
      HeadIsLeast(t, s);
      LabelOrder(s[0], t[0], s[0]);
      assert s[0] == t[0];
      AscendingIsDistinct(s);
      AscendingIsDistinct(t);
      forall x ensures x in s[1..] <==> x in t[1..] {
        TailMember(s, x);
        TailMember(t, x);
      }
      AscendingUnique(s[1..], t[1..]);
      assert s == [s[0]] + s[1..] && t == [t[0]] + t[1..];
    }
  }

  lemma TailMember(s: seq<Label>, x: Label)
    requires s != [] && Distinct(s)
    ensures x in s[1..] <==> x in s && x != s[0]
  {
    if x in s && x != s[0] {
      var i :| 0 <= i < |s| && s[i] == x;
      assert s[1..][i - 1] == x;
    }
    if x in s[1..] {
      var i :| 0 <= i < |s[1..]| && s[1..][i] == x;
      assert s[i + 1] == x && s[0] != s[i + 1];
    }
  }

  lemma HeadIsLeast(s: seq<Label>, t: seq<Label>)
    requires Ascending(s) && s != [] && t != [] && t[0] in s
    ensures s[0] == t[0] || Less(s[0], t[0])
  {
    var i :| 0 <= i < |s| && s[i] == t[0];
  }
}
