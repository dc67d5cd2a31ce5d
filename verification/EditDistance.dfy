// damerau_levenshtein of scripts/deep_inspect.py: the edit distance with
// transpositions of neighbours, and what it measures.
module EditDistance {
  import opened Prelude

  type Text = string

  // ------------------------------------------------------------------
  // Edit scripts
  // ------------------------------------------------------------------

  // One step from left to right.  No character is edited twice.
  datatype Edit =
    | Keep(c: char)
    | Change(from: char, to: char)
    | Delete(c: char)
    | Insert(c: char)
    | Swap(first: char, second: char)

  function Before(e: Edit): Text {
    match e
    case Keep(c) => [c]
    case Change(a, b) => [a]
    case Delete(c) => [c]
    case Insert(c) => []
    case Swap(a, b) => [a, b]
  }

  function After(e: Edit): Text {
    match e
    case Keep(c) => [c]
    case Change(a, b) => [b]
    case Delete(c) => []
    case Insert(c) => [c]
    case Swap(a, b) => [b, a]
  }

  function Price(e: Edit): nat {
    if e.Keep? then 0 else 1
  }

  function Source(script: seq<Edit>): Text {
    if script == [] then [] else Source(Front(script)) + Before(Last(script))
  }

  function Target(script: seq<Edit>): Text {
    if script == [] then [] else Target(Front(script)) + After(Last(script))
  }

  function Cost(script: seq<Edit>): nat {
    if script == [] then 0 else Cost(Front(script)) + Price(Last(script))
  }

  // ------------------------------------------------------------------
  // The recurrence
  // ------------------------------------------------------------------

  function CharCost(s: Text, t: Text, i: nat, j: nat): nat
    requires 0 < i <= |s| && 0 < j <= |t|
  {
    if s[i - 1] == t[j - 1] then 0 else 1
  }

  predicate Crossed(s: Text, t: Text, i: nat, j: nat)
    requires i <= |s| && j <= |t|
  {
    i > 1 && j > 1 && s[i - 1] == t[j - 2] && s[i - 2] == t[j - 1]
  }

  // The best of deletion, insertion, substitution and, where it is possible,
  // transposition.
  function Best(deleted: nat, inserted: nat, changed: nat, swapped: Option<nat>, cost: nat): nat {
    var best := MinNat(MinNat(deleted + 1, inserted + 1), changed + cost);
    if swapped.Some? then MinNat(best, swapped.value + cost) else best
  }

  // The distance between the first i characters of s and the first j of t.
  function Dist(s: Text, t: Text, i: nat, j: nat): nat
    requires i <= |s| && j <= |t|
    decreases i + j
  {
    if i == 0 then j
    else if j == 0 then i
    else Best(Dist(s, t, i - 1, j), Dist(s, t, i, j - 1), Dist(s, t, i - 1, j - 1),
              if Crossed(s, t, i, j) then Some(Dist(s, t, i - 2, j - 2)) else None,
              CharCost(s, t, i, j))
  }

  lemma Edge(s: Text, t: Text, k: nat)
    ensures k <= |s| ==> Dist(s, t, k, 0) == k
    ensures k <= |t| ==> Dist(s, t, 0, k) == k
  {
  }

  // One step of the recurrence.
  lemma Unfold(s: Text, t: Text, i: nat, j: nat)
    requires 0 < i <= |s| && 0 < j <= |t|
    ensures Dist(s, t, i, j) == Best(Dist(s, t, i - 1, j), Dist(s, t, i, j - 1), Dist(s, t, i - 1, j - 1),
      if Crossed(s, t, i, j) then Some(Dist(s, t, i - 2, j - 2)) else None, CharCost(s, t, i, j))
  {
    hide Best, CharCost;
  }

  function Distance(s: Text, t: Text): nat {
    Dist(s, t, |s|, |t|)
  }

  // ------------------------------------------------------------------
  // The table
  // ------------------------------------------------------------------

  type Table = map<(int, int), nat>

  // The cell the source calls d[(i, j)]; row and column -1 stand for the empty
  // prefix.
  ghost predicate Holds(d: Table, s: Text, t: Text, i: int, j: int)
    requires -1 <= i < |s| && -1 <= j < |t|
  {
    (i, j) in d && d[(i, j)] == Dist(s, t, i + 1, j + 1)
  }

  // Borders and all rows above i are filled, and row i up to column j.
  ghost predicate Filled(d: Table, s: Text, t: Text, i: int, j: int) {
    && (forall a {:trigger Holds(d, s, t, a, -1)} :: -1 <= a < |s| ==> Holds(d, s, t, a, -1))
    && (forall b {:trigger Holds(d, s, t, -1, b)} :: -1 <= b < |t| ==> Holds(d, s, t, -1, b))
    && (forall a, b {:trigger Holds(d, s, t, a, b)} :: 0 <= a < |s| && 0 <= b < |t| && (a < i || (a == i && b < j)) ==> Holds(d, s, t, a, b))
  }

  method Borders(s: Text, t: Text) returns (d: Table)
    ensures Filled(d, s, t, 0, 0)
  {
    d := map[];
    for i := -1 to |s| + 1
      invariant forall a :: -1 <= a < i ==> (a, -1) in d && d[(a, -1)] == a + 1
    {
      d := d[(i, -1) := i + 1];
    }
    for j := -1 to |t| + 1
      invariant forall a :: -1 <= a < |s| ==> (a, -1) in d && d[(a, -1)] == a + 1
      invariant forall b :: -1 <= b < j ==> (-1, b) in d && d[(-1, b)] == b + 1
    {
      d := d[(-1, j) := j + 1];
    }
  }

  // One cell of the table from its neighbours.
  method Cell(d: Table, s: Text, t: Text, i: nat, j: nat) returns (best: nat)
    requires i < |s| && j < |t| && Filled(d, s, t, i, j)
    ensures best == Dist(s, t, i + 1, j + 1)
  {
    hide Dist;
    Unfold(s, t, i + 1, j + 1);
    assert Holds(d, s, t, i - 1, j) && Holds(d, s, t, i, j - 1) && Holds(d, s, t, i - 1, j - 1);
    var cost := if s[i] == t[j] then 0 else 1;
    best := MinNat(MinNat(d[(i - 1, j)] + 1, d[(i, j - 1)] + 1), d[(i - 1, j - 1)] + cost);
    if i > 0 && j > 0 && s[i] == t[j - 1] && s[i - 1] == t[j] {
      assert Holds(d, s, t, i - 2, j - 2);
      best := MinNat(best, d[(i - 2, j - 2)] + cost);
    }
  }

  lemma FilledNext(d: Table, s: Text, t: Text, i: nat, j: nat, best: nat)
    requires i < |s| && j < |t| && Filled(d, s, t, i, j) && best == Dist(s, t, i + 1, j + 1)
    ensures Filled(d[(i, j) := best], s, t, i, j + 1)
  {
    var d' := d[(i, j) := best];
    forall a | -1 <= a < |s| ensures Holds(d', s, t, a, -1) { assert Holds(d, s, t, a, -1); }
    forall b | -1 <= b < |t| ensures Holds(d', s, t, -1, b) { assert Holds(d, s, t, -1, b); }
    forall a, b | 0 <= a < |s| && 0 <= b < |t| && (a < i || (a == i && b < j + 1)) ensures Holds(d', s, t, a, b) {
      if (a, b) != (i, j) { assert Holds(d, s, t, a, b); }
    }
  }

  method DamerauLevenshtein(s1: Text, s2: Text) returns (r: nat)
    ensures r == Distance(s1, s2)
  {
    var d := Borders(s1, s2);
    for i := 0 to |s1|
      invariant Filled(d, s1, s2, i, 0)
    {
      for j := 0 to |s2|
        invariant Filled(d, s1, s2, i, j)
      {
        var best := Cell(d, s1, s2, i, j);
        FilledNext(d, s1, s2, i, j, best);
        d := d[(i, j) := best];
      }
      assert Filled(d, s1, s2, i + 1, 0);
    }
    assert Holds(d, s1, s2, |s1| - 1, |s2| - 1);
    r := d[(|s1| - 1, |s2| - 1)];
  }

  // ------------------------------------------------------------------
  // Optimality
  // ------------------------------------------------------------------

  // What the last step of a script says about the ends of the two texts.
  lemma LastStep(script: seq<Edit>, s: Text, t: Text)
    requires script != [] && Source(script) <= s && Target(script) <= t
    ensures var e, i, j := Last(script), |Source(script)|, |Target(script)|;
      && Source(Front(script)) <= s && Target(Front(script)) <= t
      && i == |Source(Front(script))| + |Before(e)| && j == |Target(Front(script))| + |After(e)|
      && s[i - |Before(e)|..i] == Before(e) && t[j - |After(e)|..j] == After(e)
  {
    var e := Last(script);
    var i, j := |Source(script)|, |Target(script)|;
    assert s[..i] == Source(script) && t[..j] == Target(script);
    assert s[i - |Before(e)|..i] == Source(script)[i - |Before(e)|..];
    assert t[j - |After(e)|..j] == Target(script)[j - |After(e)|..];
    assert Source(Front(script)) == s[..i - |Before(e)|] && Target(Front(script)) == t[..j - |After(e)|];
  }

  lemma LastChars(s: Text, i: nat, x: Text)
    requires |x| <= i <= |s| && s[i - |x|..i] == x
    ensures forall k :: 0 <= k < |x| ==> s[i - |x| + k] == x[k]
  {
    forall k | 0 <= k < |x| ensures s[i - |x| + k] == x[k] {
      assert s[i - |x|..i][k] == x[k];
    }
  }

  // No script is cheaper than the recurrence.
  lemma {:induction false} NoneCheaper(script: seq<Edit>, s: Text, t: Text)
    requires Source(script) <= s && Target(script) <= t
    ensures Dist(s, t, |Source(script)|, |Target(script)|) <= Cost(script)
    decreases |script|
  {
    if script != [] {
      var e := Last(script);
      LastStep(script, s, t);
      NoneCheaper(Front(script), s, t);
      LastChars(s, |Source(script)|, Before(e));
      LastChars(t, |Target(script)|, After(e));
      StepIsCovered(s, t, |Source(Front(script))|, |Target(Front(script))|, e);
    }
  }

  // Each kind of step is one the recurrence considers.
  lemma StepIsCovered(s: Text, t: Text, i: nat, j: nat, e: Edit)
    requires i + |Before(e)| <= |s| && j + |After(e)| <= |t|
    requires forall k :: 0 <= k < |Before(e)| ==> s[i + k] == Before(e)[k]
    requires forall k :: 0 <= k < |After(e)| ==> t[j + k] == After(e)[k]
    ensures Dist(s, t, i + |Before(e)|, j + |After(e)|) <= Dist(s, t, i, j) + Price(e)
  {
    hide Dist;
    if i + |Before(e)| == 0 || j + |After(e)| == 0 {
      Edge(s, t, i + |Before(e)|);
      Edge(s, t, i);
      Edge(s, t, j + |After(e)|);
      Edge(s, t, j);
    } else {
      Unfold(s, t, i + |Before(e)|, j + |After(e)|);
      match e
      case Keep(c) => assert s[i] == Before(e)[0] && t[j] == After(e)[0];
      case Swap(a, b) =>
        assert s[i] == Before(e)[0] && s[i + 1] == Before(e)[1] && t[j] == After(e)[0] && t[j + 1] == After(e)[1];
        assert Crossed(s, t, i + 2, j + 2);
      case _ =>
    }
  }

  lemma Extend(script: seq<Edit>, e: Edit)
    ensures Source(script + [e]) == Source(script) + Before(e)
    ensures Target(script + [e]) == Target(script) + After(e)
    ensures Cost(script + [e]) == Cost(script) + Price(e)
  {
    assert Front(script + [e]) == script;
  }

  ghost predicate Achieves(script: seq<Edit>, s: Text, t: Text, i: nat, j: nat)
    requires i <= |s| && j <= |t|
  {
    Source(script) == s[..i] && Target(script) == t[..j] && Cost(script) == Dist(s, t, i, j)
  }

  // A script with one more step.
  lemma Achieved(script: seq<Edit>, e: Edit, s: Text, t: Text, i: nat, j: nat)
    requires IsLastEdit(e, s, t, i, j)
    requires Achieves(script, s, t, i - |Before(e)|, j - |After(e)|)
    ensures Achieves(script + [e], s, t, i, j)
  {
    hide Dist, Before, After, Price, Source, Target, Cost;
    Extend(script, e);
    assert s[..i] == s[..i - |Before(e)|] + s[i - |Before(e)|..i];
    assert t[..j] == t[..j - |After(e)|] + t[j - |After(e)|..j];
  }

  // A last step that costs what the recurrence says.
  ghost predicate IsLastEdit(e: Edit, s: Text, t: Text, i: nat, j: nat) {
    && |Before(e)| <= i <= |s| && |After(e)| <= j <= |t|
    && s[i - |Before(e)|..i] == Before(e) && t[j - |After(e)|..j] == After(e)
    && Dist(s, t, i, j) == Dist(s, t, i - |Before(e)|, j - |After(e)|) + Price(e)
  }

  lemma DeleteIsLast(s: Text, t: Text, i: nat, j: nat)
    requires 0 < i <= |s| && j <= |t| && Dist(s, t, i, j) == Dist(s, t, i - 1, j) + 1
    ensures IsLastEdit(Delete(s[i - 1]), s, t, i, j)
  {
    hide Dist;
  }

  lemma InsertIsLast(s: Text, t: Text, i: nat, j: nat)
    requires i <= |s| && 0 < j <= |t| && Dist(s, t, i, j) == Dist(s, t, i, j - 1) + 1
    ensures IsLastEdit(Insert(t[j - 1]), s, t, i, j)
  {
    hide Dist;
  }

  lemma OneOnOneIsLast(s: Text, t: Text, i: nat, j: nat)
    requires 0 < i <= |s| && 0 < j <= |t|
    requires Dist(s, t, i, j) == Dist(s, t, i - 1, j - 1) + CharCost(s, t, i, j)
    ensures IsLastEdit(if s[i - 1] == t[j - 1] then Keep(s[i - 1]) else Change(s[i - 1], t[j - 1]), s, t, i, j)
  {
    hide Dist;
  }

  lemma SwapIsLast(s: Text, t: Text, i: nat, j: nat)
    requires i <= |s| && j <= |t| && Crossed(s, t, i, j)
    requires Dist(s, t, i, j) == Dist(s, t, i - 2, j - 2) + 1
    ensures IsLastEdit(Swap(s[i - 2], s[i - 1]), s, t, i, j)
  {
    hide Dist;
    assert s[i - 2..i] == [s[i - 2], s[i - 1]] && t[j - 2..j] == [t[j - 2], t[j - 1]];
  }

  lemma LastEdit(s: Text, t: Text, i: nat, j: nat) returns (e: Edit)
    requires i <= |s| && j <= |t| && i + j > 0
    ensures IsLastEdit(e, s, t, i, j)
  {
    hide Dist, IsLastEdit;
    Edge(s, t, i);
    Edge(s, t, j);
    if i > 0 && j > 0 {
      Unfold(s, t, i, j);
    } else {
      Edge(s, t, i + j - 1);
    }
    if i > 0 && Dist(s, t, i, j) == Dist(s, t, i - 1, j) + 1 {
      DeleteIsLast(s, t, i, j);
      e := Delete(s[i - 1]);
    } else if j > 0 && Dist(s, t, i, j) == Dist(s, t, i, j - 1) + 1 {
      InsertIsLast(s, t, i, j);
      e := Insert(t[j - 1]);
    } else if Dist(s, t, i, j) == Dist(s, t, i - 1, j - 1) + CharCost(s, t, i, j) {
      OneOnOneIsLast(s, t, i, j);
      e := if s[i - 1] == t[j - 1] then Keep(s[i - 1]) else Change(s[i - 1], t[j - 1]);
    } else {
      SwapIsDear(s, t, i, j);
      SwapIsLast(s, t, i, j);
      e := Swap(s[i - 2], s[i - 1]);
    }
  }

  // And some script costs exactly that.
  lemma {:induction false} SomeAsCheap(s: Text, t: Text, i: nat, j: nat) returns (script: seq<Edit>)
    requires i <= |s| && j <= |t|
    ensures Achieves(script, s, t, i, j)
    decreases i + j
  {
    hide Dist, Achieves;
    if i + j == 0 {
      script := [];
      NothingToDo(s, t);
    } else {
      var e := LastEdit(s, t, i, j);
      script := SomeAsCheap(s, t, i - |Before(e)|, j - |After(e)|);
      Achieved(script, e, s, t, i, j);
      script := script + [e];
    }
  }

  lemma NothingToDo(s: Text, t: Text)
    ensures Achieves([], s, t, 0, 0)
  {
  }

  // Where all four characters are equal the transposition is never the only way.
  lemma SwapIsDear(s: Text, t: Text, i: nat, j: nat)
    requires i <= |s| && j <= |t| && Crossed(s, t, i, j)
    requires Dist(s, t, i, j) != Dist(s, t, i - 1, j - 1) + CharCost(s, t, i, j)
    requires Dist(s, t, i, j) == Dist(s, t, i - 2, j - 2) + CharCost(s, t, i, j)
    ensures CharCost(s, t, i, j) == 1
  {
    hide Dist;
    Unfold(s, t, i, j);
    Unfold(s, t, i - 1, j - 1);
  }

  // The distance is the least cost of a script from s to t.
  lemma DistanceIsOptimal(s: Text, t: Text)
    ensures exists script :: Source(script) == s && Target(script) == t && Cost(script) == Distance(s, t)
    ensures forall script :: Source(script) == s && Target(script) == t ==> Distance(s, t) <= Cost(script)
  {
    var best := SomeAsCheap(s, t, |s|, |t|);
    assert s[..|s|] == s && t[..|t|] == t;
    assert Source(best) == s;
    forall script | Source(script) == s && Target(script) == t ensures Distance(s, t) <= Cost(script) {
      NoneCheaper(script, s, t);
    }
  }

  // ------------------------------------------------------------------
  // What follows
  // ------------------------------------------------------------------

  lemma {:induction false} DistSymmetric(s: Text, t: Text, i: nat, j: nat)
    requires i <= |s| && j <= |t|
    ensures Dist(s, t, i, j) == Dist(t, s, j, i)
    decreases i + j
  {
    hide Dist;
    if i == 0 || j == 0 {
      Edge(s, t, i);
      Edge(s, t, j);
      Edge(t, s, i);
      Edge(t, s, j);
    } else {
      Unfold(s, t, i, j);
      Unfold(t, s, j, i);
      DistSymmetric(s, t, i - 1, j);
      DistSymmetric(s, t, i, j - 1);
      DistSymmetric(s, t, i - 1, j - 1);
      if Crossed(s, t, i, j) { DistSymmetric(s, t, i - 2, j - 2); }
    }
  }

  lemma Symmetric(s: Text, t: Text)
    ensures Distance(s, t) == Distance(t, s)
  {
    DistSymmetric(s, t, |s|, |t|);
  }

  // Lengths differ by at most the cost of a script, and a free script copies.
  lemma {:induction false} CostBounds(script: seq<Edit>)
    ensures |Source(script)| <= |Target(script)| + Cost(script)
    ensures |Target(script)| <= |Source(script)| + Cost(script)
    ensures Cost(script) == 0 ==> Source(script) == Target(script)
  {
    if script != [] { CostBounds(Front(script)); }
  }

  lemma {:induction false} DistAtMost(s: Text, t: Text, i: nat, j: nat)
    requires i <= |s| && j <= |t|
    ensures Dist(s, t, i, j) <= MaxNat(i, j)
    decreases i + j
  {
    if i > 0 && j > 0 {
      DistAtMost(s, t, i - 1, j - 1);
    }
  }

  lemma {:induction false} SameIsFree(s: Text, i: nat)
    requires i <= |s|
    ensures Dist(s, s, i, i) == 0
  {
    if i > 0 { SameIsFree(s, i - 1); }
  }

  // Zero exactly on equal texts, and between the difference of the lengths and
  // the longer length.
  lemma DistanceBounds(s: Text, t: Text)
    ensures Distance(s, t) == 0 <==> s == t
    ensures |s| <= |t| + Distance(s, t) && |t| <= |s| + Distance(s, t)
    ensures Distance(s, t) <= MaxNat(|s|, |t|)
  {
    var best := SomeAsCheap(s, t, |s|, |t|);
    assert s[..|s|] == s && t[..|t|] == t;
    CostBounds(best);
    DistAtMost(s, t, |s|, |t|);
    if s == t { SameIsFree(s, |s|); }
  }
}
