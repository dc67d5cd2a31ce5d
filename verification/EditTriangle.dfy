// How far the edit distance of scripts/deep_inspect.py is from a metric: what
// composing scripts gives, and where swaps of neighbours stand in the way.
module EditTriangle {
  import opened Prelude
  import opened EditDistance

  // A script without transpositions.
  predicate Plain(script: seq<Edit>) {
    forall i :: 0 <= i < |script| ==> !script[i].Swap?
  }

  // ------------------------------------------------------------------
  // Composition
  // ------------------------------------------------------------------

  predicate Meets(e: Edit, f: Edit) {
    !e.Swap? && !f.Swap? && |After(e)| == 1 && After(e) == Before(f)
  }

  // Two steps through the same character, as one step or none.
  function Combined(e: Edit, f: Edit): (r: seq<Edit>)
    requires Meets(e, f)
    ensures |r| <= 1 && Plain(r)
  {
    if e.Insert? then (if f.Delete? then [] else [Insert(After(f)[0])])
    else if f.Delete? then [Delete(Before(e)[0])]
    else if Before(e)[0] == After(f)[0] then [Keep(Before(e)[0])]
    else [Change(Before(e)[0], After(f)[0])]
  }

  lemma AppendCombined(z: seq<Edit>, e: Edit, f: Edit)
    requires Meets(e, f)
    ensures Source(z + Combined(e, f)) == Source(z) + Before(e)
    ensures Target(z + Combined(e, f)) == Target(z) + After(f)
    ensures Cost(z + Combined(e, f)) <= Cost(z) + Price(e) + Price(f)
  {
    var r := Combined(e, f);
    if r == [] {
      assert z + r == z;
    } else {
      Extend(z, r[0]);
      assert r == [r[0]];
    }
  }

  ghost predicate Composes(z: seq<Edit>, x: seq<Edit>, y: seq<Edit>) {
    Plain(z) && Source(z) == Source(x) && Target(z) == Target(y) && Cost(z) <= Cost(x) + Cost(y)
  }

  // Both last steps go through the last character of the text between.
  lemma LastMeet(x: seq<Edit>, y: seq<Edit>)
    requires Plain(x) && Plain(y) && Target(x) == Source(y) && x != [] && y != []
    requires !Last(x).Delete? && !Last(y).Insert?
    ensures Meets(Last(x), Last(y)) && Target(Front(x)) == Source(Front(y))
  {
    var t := Target(x);
    assert t == Target(Front(x)) + After(Last(x)) && t == Source(Front(y)) + Before(Last(y));
    assert t[|t| - 1] == After(Last(x))[0] == Before(Last(y))[0];
    assert Target(Front(x)) == t[..|t| - 1] == Source(Front(y));
  }

  lemma Ends(x: seq<Edit>)
    requires x != []
    ensures Source(x) == Source(Front(x)) + Before(Last(x))
    ensures Target(x) == Target(Front(x)) + After(Last(x))
    ensures Cost(x) == Cost(Front(x)) + Price(Last(x))
  {
  }

  lemma AfterDelete(z: seq<Edit>, x: seq<Edit>, y: seq<Edit>)
    requires x != [] && Last(x).Delete? && Composes(z, Front(x), y)
    ensures Composes(z + [Last(x)], x, y)
  {
    hide Source, Target, Cost;
    Ends(x);
    Extend(z, Last(x));
  }

  lemma AfterInsert(z: seq<Edit>, x: seq<Edit>, y: seq<Edit>)
    requires y != [] && Last(y).Insert? && Composes(z, x, Front(y))
    ensures Composes(z + [Last(y)], x, y)
  {
    hide Source, Target, Cost;
    Ends(y);
    Extend(z, Last(y));
  }

  lemma AfterBoth(z: seq<Edit>, x: seq<Edit>, y: seq<Edit>)
    requires x != [] && y != [] && Meets(Last(x), Last(y)) && Composes(z, Front(x), Front(y))
    ensures Composes(z + Combined(Last(x), Last(y)), x, y)
  {
    hide Source, Target, Cost, Combined;
    Ends(x);
    Ends(y);
    AppendCombined(z, Last(x), Last(y));
  }

  // A plain script that does not end in a deletion produces something, one that
  // does not end in an insertion consumes something.
  lemma Produces(x: seq<Edit>)
    requires Plain(x)
    ensures x != [] && !Last(x).Delete? ==> Target(x) != []
    ensures x != [] && !Last(x).Insert? ==> Source(x) != []
    ensures x == [] ==> Source(x) == [] && Target(x) == []
  {
    if x != [] { Ends(x); }
  }

  // Plain scripts compose at no more than their joint cost.
  lemma {:induction false} Compose(x: seq<Edit>, y: seq<Edit>) returns (z: seq<Edit>)
    requires Plain(x) && Plain(y) && Target(x) == Source(y)
    ensures Composes(z, x, y)
    decreases |x| + |y|
  {
    hide Source, Target, Cost, Combined;
    if x != [] && Last(x).Delete? {
      Ends(x);
      z := Compose(Front(x), y);
      AfterDelete(z, x, y);
      z := z + [Last(x)];
    } else if y != [] && Last(y).Insert? {
      Ends(y);
      z := Compose(x, Front(y));
      AfterInsert(z, x, y);
      z := z + [Last(y)];
    } else if x != [] && y != [] {
      LastMeet(x, y);
      z := Compose(Front(x), Front(y));
      AfterBoth(z, x, y);
      z := z + Combined(Last(x), Last(y));
    } else {
      Produces(x);
      Produces(y);
      z := [];
    }
  }

  ghost predicate Optimal(x: seq<Edit>, s: Text, t: Text) {
    Source(x) == s && Target(x) == t && Cost(x) == Distance(s, t)
  }

  // The triangle inequality holds wherever the two distances are attained without
  // transpositions.
  lemma TriangleWithoutSwaps(s: Text, t: Text, u: Text, x: seq<Edit>, y: seq<Edit>)
    requires Optimal(x, s, t) && Plain(x) && Optimal(y, t, u) && Plain(y)
    ensures Distance(s, u) <= Distance(s, t) + Distance(t, u)
  {
    var z := Compose(x, y);
    DistanceIsOptimal(s, u);
  }

  // ------------------------------------------------------------------
  // With transpositions
  // ------------------------------------------------------------------

  // A swap is two changes.
  lemma SwapAsChanges(z: seq<Edit>, a: char, b: char)
    ensures var z' := z + [Change(a, b)] + [Change(b, a)];
      && Source(z') == Source(z) + Before(Swap(a, b))
      && Target(z') == Target(z) + After(Swap(a, b))
      && Cost(z') == Cost(z) + 2
  {
    hide Source, Target, Cost;
    Extend(z, Change(a, b));
    Extend(z + [Change(a, b)], Change(b, a));
  }

  // z does what x does, without swaps, at no more than twice the cost.
  ghost predicate Replaces(z: seq<Edit>, x: seq<Edit>) {
    Plain(z) && Source(z) == Source(x) && Target(z) == Target(x) && Cost(z) <= 2 * Cost(x)
  }

  lemma ReplacesMore(z: seq<Edit>, x: seq<Edit>)
    requires x != [] && Replaces(z, Front(x)) && !Last(x).Swap?
    ensures Replaces(z + [Last(x)], x)
  {
    hide Source, Target, Cost;
    Ends(x);
    Extend(z, Last(x));
  }

  lemma ReplacesSwap(z: seq<Edit>, x: seq<Edit>, a: char, b: char)
    requires x != [] && Replaces(z, Front(x)) && Last(x) == Swap(a, b)
    ensures Replaces(z + [Change(a, b)] + [Change(b, a)], x)
  {
    hide Source, Target, Cost;
    Ends(x);
    SwapAsChanges(z, a, b);
  }

  lemma {:induction false} WithoutSwaps(x: seq<Edit>) returns (z: seq<Edit>)
    ensures Replaces(z, x)
    decreases |x|
  {
    if x == [] {
      z := [];
    } else {
      hide Replaces;
      z := WithoutSwaps(Front(x));
      var e := Last(x);
      if e.Swap? {
        ReplacesSwap(z, x, e.first, e.second);
        z := z + [Change(e.first, e.second)] + [Change(e.second, e.first)];
      } else {
        ReplacesMore(z, x);
        z := z + [e];
      }
    }
  }

  // In general the sum is exceeded by a factor of two at most.
  lemma TwiceTheTriangle(s: Text, t: Text, u: Text)
    ensures Distance(s, u) <= 2 * (Distance(s, t) + Distance(t, u))
  {
    DistanceIsOptimal(s, t);
    DistanceIsOptimal(t, u);
    DistanceIsOptimal(s, u);
    var x :| Source(x) == s && Target(x) == t && Cost(x) == Distance(s, t);
    var y :| Source(y) == t && Target(y) == u && Cost(y) == Distance(t, u);
    var x' := WithoutSwaps(x);
    var y' := WithoutSwaps(y);
    var z := Compose(x', y');
  }

  // A cell worked out from its neighbours.
  lemma CellIs(s: Text, t: Text, i: nat, j: nat, deleted: nat, inserted: nat, changed: nat, r: nat)
    requires 0 < i <= |s| && 0 < j <= |t| && !Crossed(s, t, i, j)
    requires Dist(s, t, i - 1, j) == deleted && Dist(s, t, i, j - 1) == inserted && Dist(s, t, i - 1, j - 1) == changed
    requires r == MinNat(MinNat(deleted + 1, inserted + 1), changed + CharCost(s, t, i, j))
    ensures Dist(s, t, i, j) == r
  {
    hide Dist;
    Unfold(s, t, i, j);
  }

  lemma CrossedCellAtMost(s: Text, t: Text, i: nat, j: nat)
    requires i <= |s| && j <= |t| && Crossed(s, t, i, j)
    ensures Dist(s, t, i, j) <= Dist(s, t, i - 2, j - 2) + 1
  {
    hide Dist;
    Unfold(s, t, i, j);
  }

  lemma SwapCostsOne()
    ensures Distance("ca", "ac") == 1
  {
    hide Dist;
    var s, t := "ca", "ac";
    Edge(s, t, 0);
    CrossedCellAtMost(s, t, 2, 2);
    assert s[0] != t[0];
    DistanceBounds(s, t);
  }

  lemma InsertCostsOne()
    ensures Distance("ac", "abc") == 1
  {
    hide Dist;
    var s, t := "ac", "abc";
    Edge(s, t, 0);
    Edge(s, t, 1);
    Edge(s, t, 2);
    Edge(s, t, 3);
    CellIs(s, t, 1, 1, 1, 1, 0, 0);
    CellIs(s, t, 1, 2, 2, 0, 1, 1);
    CellIs(s, t, 1, 3, 3, 1, 2, 2);
    CellIs(s, t, 2, 1, 0, 2, 1, 1);
    CellIs(s, t, 2, 2, 1, 1, 0, 1);
    CellIs(s, t, 2, 3, 2, 1, 1, 1);
  }

  lemma BothCostThree()
    ensures Distance("ca", "abc") == 3
  {
    hide Dist;
    var s, t := "ca", "abc";
    Edge(s, t, 0);
    Edge(s, t, 1);
    Edge(s, t, 2);
    Edge(s, t, 3);
    CellIs(s, t, 1, 1, 1, 1, 0, 1);
    CellIs(s, t, 1, 2, 2, 1, 1, 2);
    CellIs(s, t, 1, 3, 3, 2, 2, 2);
    CellIs(s, t, 2, 1, 1, 2, 1, 1);
    CellIs(s, t, 2, 2, 2, 1, 1, 2);
    CellIs(s, t, 2, 3, 2, 2, 2, 3);
  }
  // The triangle inequality fails where a swap is followed by an insertion between
  // the two characters: neither may be edited twice.
  lemma NoTriangle()
    ensures Distance("ca", "abc") > Distance("ca", "ac") + Distance("ac", "abc")
  {
    SwapCostsOne();
    InsertCostsOne();
    BothCostThree();
  }

  // ------------------------------------------------------------------
  // The documented example
  // ------------------------------------------------------------------

  // As cheap as the lengths allow: nothing is lost.
  lemma {:induction false} OnlyInserts(script: seq<Edit>)
    requires |Target(script)| == |Source(script)| + Cost(script)
    ensures forall c :: c in Source(script) ==> c in Target(script)
    decreases |script|
  {
    if script != [] {
      CostBounds(Front(script));
      OnlyInserts(Front(script));
    }
  }

  lemma {:induction false} CopyOf(s: Text) returns (script: seq<Edit>)
    ensures Source(script) == s && Target(script) == s && Cost(script) == 0
    decreases |s|
  {
    if s == [] {
      script := [];
    } else {
      script := CopyOf(Front(s));
      Extend(script, Keep(Last(s)));
      script := script + [Keep(Last(s))];
    }
  }

  lemma MetrixAtMost()
    ensures Distance("metrix", "metrics") <= 2
  {
    hide Source, Target, Cost;
    var copy := CopyOf("metri");
    Extend(copy, Change('x', 'c'));
    var script := copy + [Change('x', 'c')];
    Extend(script, Insert('s'));
    assert Source(script + [Insert('s')]) == "metrix" && Target(script + [Insert('s')]) == "metrics";
    DistanceIsOptimal("metrix", "metrics");
  }

  // "metrix" is two steps from "metrics", not one: no insertion alone gives a
  // text without the x.
  lemma MetrixIsTwoSteps()
    ensures Distance("metrix", "metrics") == 2
  {
    hide Source, Target, Cost;
    var s, t := "metrix", "metrics";
    MetrixAtMost();
    DistanceIsOptimal(s, t);
    DistanceBounds(s, t);
    var best :| Source(best) == s && Target(best) == t && Cost(best) == Distance(s, t);
    assert s[5] == 'x' && 'x' !in t;
    if Distance(s, t) == 1 { OnlyInserts(best); }
  }
}
