// The tree as a value: every node's path mapped to what that node holds.  The
// heap tree (module RadixTree) refines this one; here the shape invariant, the
// effect of an insert or a sort, and the table of entries they stand for are
// plain facts about maps.
module Forest {
  import opened Prelude
  import opened Labels

  datatype Status = Blocked | Allowed | Review

  datatype Entry = Entry(
    status: Status,
    ttl: Word,
    hitCount: nat,
    lastSeen: nat,
    source: nat,
    score: real,
    note: Option<Name>)

  datatype Cell = Cell(kids: seq<Label>, sorted: bool, entry: Option<Entry>)

  type Forest = map<Path, Cell>

  // The meaning of a tree.
  type Table = map<Path, Entry>

  function Entries(f: Forest): Table {
    map p | p in f && f[p].entry.Some? :: f[p].entry.value
  }

  ghost predicate CellOk(f: Forest, p: Path)
    requires p in f
  {
    var kids := f[p].kids;
    (forall i :: 0 <= i < |kids| ==> p + [kids[i]] in f)
    && Distinct(kids)
    && (f[p].sorted ==> Ascending(kids))
  }

  ghost predicate HasParent(f: Forest, p: Path)
    requires p != []
  {
    Front(p) in f && Last(p) in f[Front(p)].kids
  }

  // The shape of a tree: rooted, every child a node, every other node the
  // child of its parent, sibling labels distinct, and ascending wherever the
  // sorted flag says so.  Paths being sequences, it is acyclic by construction.
  ghost predicate Shape(f: Forest) {
    && [] in f
    && (forall p {:trigger CellOk(f, p)} :: p in f ==> CellOk(f, p))
    && (forall p {:trigger HasParent(f, p)} :: p in f && p != [] ==> HasParent(f, p))
  }

  // ------------------------------------------------------------------
  // Prefixes
  // ------------------------------------------------------------------

  lemma {:induction false} PrefixClosed(f: Forest, p: Path, k: nat)
    requires Shape(f) && p in f && k <= |p|
    ensures p[..k] in f
    decreases |p|
  {
    if k < |p| {
      assert HasParent(f, p);
      PrefixClosed(f, Front(p), k);
      assert Front(p)[..k] == p[..k];
    } else {
      assert p[..k] == p;
    }
  }

  lemma KidIffNode(f: Forest, p: Path, l: Label)
    requires Shape(f) && p in f
    ensures l in f[p].kids <==> p + [l] in f
  {
    assert CellOk(f, p);
    if l in f[p].kids {
      var i :| 0 <= i < |f[p].kids| && f[p].kids[i] == l;
    }
    if p + [l] in f {
      assert HasParent(f, p + [l]);
      assert Front(p + [l]) == p && Last(p + [l]) == l;
    }
  }

  // ------------------------------------------------------------------
  // Insertion
  // ------------------------------------------------------------------

  // How many leading labels of ls, from i on, already have a node.
  function Depth(f: Forest, ls: Path, i: nat): (k: nat)
    requires i <= |ls|
    ensures i <= k <= |ls|
    ensures k < |ls| ==> ls[..k + 1] !in f
    ensures forall j :: i < j <= k ==> ls[..j] in f
    decreases |ls| - i
  {
    if i == |ls| || ls[..i + 1] !in f then i else Depth(f, ls, i + 1)
  }

  function AddChild(f: Forest, p: Path, l: Label): Forest
    requires p in f
  {
    f[p := f[p].(kids := f[p].kids + [l], sorted := false)]
     [p + [l] := Cell([], true, None)]
  }

  // The chain of nodes that continues ls[..k] down to ls[..i].
  function Chain(f: Forest, ls: Path, k: nat, i: nat): (g: Forest)
    requires k <= i <= |ls| && ls[..k] in f
    ensures ls[..i] in g
    ensures f.Keys <= g.Keys
    decreases i
  {
    if i == k then f
    else
      var g := Chain(f, ls, k, i - 1);
      assert ls[..i] == ls[..i - 1] + [ls[i - 1]];
      AddChild(g, ls[..i - 1], ls[i - 1])
  }

  function SetEntry(f: Forest, p: Path, e: Option<Entry>): Forest
    requires p in f
  {
    f[p := f[p].(entry := e)]
  }

  function Unsort(f: Forest, p: Path): Forest
    requires p in f
  {
    f[p := f[p].(sorted := false)]
  }

  // A cell whose children are unchanged stays in order when nodes are only added.
  lemma CellKept(f: Forest, g: Forest, q: Path)
    requires q in f && CellOk(f, q)
    requires f.Keys <= g.Keys && g[q].kids == f[q].kids && (g[q].sorted ==> f[q].sorted)
    ensures CellOk(g, q)
  {
  }

  lemma ParentKept(f: Forest, g: Forest, q: Path)
    requires q != [] && HasParent(f, q)
    requires f.Keys <= g.Keys && forall l :: l in f[Front(q)].kids ==> l in g[Front(q)].kids
    ensures HasParent(g, q)
  {
  }

  lemma AddChildShape(f: Forest, p: Path, l: Label)
    requires Shape(f) && p in f && p + [l] !in f
    ensures Shape(AddChild(f, p, l))
  {
    var g := AddChild(f, p, l);
    var r := p + [l];
    assert l !in f[p].kids by { KidIffNode(f, p, l); }
    AddChildCells(f, p, l);
    assert [] in g;
    forall q | q in g ensures CellOk(g, q) {
      if q == p {
        assert CellOk(f, p);
        AddedCellOk(f, g, p, l);
      } else if q != r {
        assert CellOk(f, q);
        CellKept(f, g, q);
      }
    }
    forall q | q in g && q != [] ensures HasParent(g, q) {
      if q == r {
        assert Front(r) == p && Last(r) == l;
        assert g[p].kids[|f[p].kids|] == l;
      } else {
        assert HasParent(f, q);
        assert Front(q) != r;
        ParentKept(f, g, q);
      }
    }
  }

  lemma AddChildCells(f: Forest, p: Path, l: Label)
    requires p in f && p + [l] !in f
    ensures var g := AddChild(f, p, l);
      && g.Keys == f.Keys + {p + [l]}
      && g[p] == f[p].(kids := f[p].kids + [l], sorted := false)
      && g[p + [l]] == Cell([], true, None)
      && (forall q :: q in f && q != p ==> g[q] == f[q])
      && Entries(g) == Entries(f)
  {
    assert |p + [l]| != |p|;
  }

  lemma AddedCellOk(f: Forest, g: Forest, p: Path, l: Label)
    requires p in f && CellOk(f, p) && l !in f[p].kids
    requires f.Keys <= g.Keys && p + [l] in g && g[p].kids == f[p].kids + [l] && !g[p].sorted
    ensures CellOk(g, p)
  {
  }

  // Nothing below a missing node exists.
  lemma NoneBelow(f: Forest, ls: Path, k: nat)
    requires Shape(f) && k <= |ls| && (k < |ls| ==> ls[..k + 1] !in f)
    ensures forall j :: k < j <= |ls| ==> ls[..j] !in f
  {
    forall j | k < j <= |ls| ensures ls[..j] !in f {
      assert ls[..j][..k + 1] == ls[..k + 1];
      if ls[..j] in f { PrefixClosed(f, ls[..j], k + 1); }
    }
  }

  predicate OnChain(ls: Path, k: nat, i: nat, q: Path) {
    k < |q| <= i <= |ls| && q == ls[..|q|]
  }

  lemma {:induction false} ChainKeys(f: Forest, ls: Path, k: nat, i: nat)
    requires k <= i <= |ls| && ls[..k] in f
    ensures forall q :: q in Chain(f, ls, k, i) <==> q in f || OnChain(ls, k, i, q)
    decreases i
  {
    if k < i {
      ChainKeys(f, ls, k, i - 1);
      assert ls[..i] == ls[..i - 1] + [ls[i - 1]];
      forall q ensures q in Chain(f, ls, k, i) <==> q in f || OnChain(ls, k, i, q) {
        assert q in Chain(f, ls, k, i) <==> q in Chain(f, ls, k, i - 1) || q == ls[..i];
        assert OnChain(ls, k, i, q) <==> OnChain(ls, k, i - 1, q) || q == ls[..i];
      }
    }
  }

  // The last link of a chain.
  lemma ChainLink(f: Forest, ls: Path, k: nat, i: nat)
    requires k < i <= |ls| && ls[..k] in f
    requires forall j :: k < j <= |ls| ==> ls[..j] !in f
    ensures ls[..i - 1] + [ls[i - 1]] == ls[..i] && ls[..i] !in Chain(f, ls, k, i - 1)
    ensures Chain(f, ls, k, i) == AddChild(Chain(f, ls, k, i - 1), ls[..i - 1], ls[i - 1])
  {
    ChainKeys(f, ls, k, i - 1);
    assert !OnChain(ls, k, i - 1, ls[..i]);
  }

  lemma {:induction false} ChainEntries(f: Forest, ls: Path, k: nat, i: nat)
    requires k <= i <= |ls| && ls[..k] in f
    requires forall j :: k < j <= |ls| ==> ls[..j] !in f
    ensures Entries(Chain(f, ls, k, i)) == Entries(f)
    decreases i
  {
    if k < i {
      ChainEntries(f, ls, k, i - 1);
      ChainLink(f, ls, k, i);
      AddChildCells(Chain(f, ls, k, i - 1), ls[..i - 1], ls[i - 1]);
    }
  }

  // Where a chain hangs, and where it ends.
  lemma {:induction false} ChainEnds(f: Forest, ls: Path, k: nat, i: nat)
    requires k < i <= |ls| && ls[..k] in f
    requires forall j :: k < j <= |ls| ==> ls[..j] !in f
    ensures Chain(f, ls, k, i)[ls[..k]] == f[ls[..k]].(kids := f[ls[..k]].kids + [ls[k]], sorted := false)
    ensures Chain(f, ls, k, i)[ls[..i]] == Cell([], true, None)
    decreases i
  {
    ChainLink(f, ls, k, i);
    AddChildCells(Chain(f, ls, k, i - 1), ls[..i - 1], ls[i - 1]);
    if k < i - 1 {
      ChainEnds(f, ls, k, i - 1);
      assert |ls[..k]| != |ls[..i - 1]|;
    }
  }

  lemma {:induction false} ChainKeeps(f: Forest, ls: Path, k: nat, i: nat, q: Path)
    requires k <= i <= |ls| && ls[..k] in f
    requires forall j :: k < j <= |ls| ==> ls[..j] !in f
    requires q in f && q != ls[..k]
    ensures Chain(f, ls, k, i)[q] == f[q]
    decreases i
  {
    if k < i {
      ChainKeeps(f, ls, k, i - 1, q);
      ChainLink(f, ls, k, i);
      AddChildCells(Chain(f, ls, k, i - 1), ls[..i - 1], ls[i - 1]);
      assert k < i - 1 ==> ls[..i - 1] !in f;
    }
  }

  // What a chain leaves of the tree it was built on.
  lemma ChainCells(f: Forest, ls: Path, k: nat, i: nat)
    requires Shape(f) && k < i <= |ls| && ls[..k] in f && ls[..k + 1] !in f
    ensures var g := Chain(f, ls, k, i);
      && (forall q :: q in f && q != ls[..k] ==> g[q] == f[q])
      && g[ls[..k]] == f[ls[..k]].(kids := f[ls[..k]].kids + [ls[k]], sorted := false)
      && g[ls[..i]] == Cell([], true, None)
  {
    NoneBelow(f, ls, k);
    ChainEnds(f, ls, k, i);
    forall q | q in f && q != ls[..k] ensures Chain(f, ls, k, i)[q] == f[q] {
      ChainKeeps(f, ls, k, i, q);
    }
  }

  lemma {:induction false} ChainShape(f: Forest, ls: Path, k: nat, i: nat)
    requires Shape(f) && k <= i <= |ls| && ls[..k] in f
    requires forall j :: k < j <= |ls| ==> ls[..j] !in f
    ensures Shape(Chain(f, ls, k, i))
    decreases i
  {
    if k < i {
      ChainShape(f, ls, k, i - 1);
      ChainLink(f, ls, k, i);
      AddChildShape(Chain(f, ls, k, i - 1), ls[..i - 1], ls[i - 1]);
    }
  }

  // The two ways the walk of an insert goes on from depth i.
  lemma ChainNext(f: Forest, ls: Path, k: nat, i: nat)
    requires Shape(f) && k <= i < |ls| && ls[..k] in f
    requires k < i ==> ls[..k + 1] !in f
    ensures ls[..i] + [ls[i]] == ls[..i + 1]
    ensures Shape(Chain(f, ls, k, i))
    ensures ls[..i + 1] in Chain(f, ls, k, i) ==> k == i && ls[..i + 1] in f
    ensures ls[..i + 1] !in Chain(f, ls, k, i) ==>
      && ls[..k + 1] !in f
      && Chain(f, ls, k, i + 1) == AddChild(Chain(f, ls, k, i), ls[..i], ls[i])
  {
    if ls[..k + 1] in f {
      assert k == i;
    } else {
      NoneBelow(f, ls, k);
      ChainShape(f, ls, k, i);
      ChainLink(f, ls, k, i + 1);
    }
  }

  function InsertForest(f: Forest, ls: Path, e: Entry): Forest
    requires [] in f
  {
    var k := Depth(f, ls, 0);
    assert ls[..0] == [];
    var g := Chain(f, ls, k, |ls|);
    assert ls[..|ls|] == ls;
    SetEntry(g, ls, Some(e))
  }

  lemma {:induction false} DepthUnique(f: Forest, ls: Path, i: nat, k: nat)
    requires i <= k <= |ls|
    requires forall j :: i <= j <= k ==> ls[..j] in f
    requires k < |ls| ==> ls[..k + 1] !in f
    ensures Depth(f, ls, i) == k
    decreases k - i
  {
    if i < k { DepthUnique(f, ls, i + 1, k); }
  }

  // The allocation an insert failed on, if any.
  datatype Fault = NoFault | NodeFault | GrowFault | NoteFault | EntryFault

  // What a failed insert leaves behind: the tree as it was, up to the sorted
  // flag of the one node that had been appended to -- except that a failed entry
  // allocation on a node that already existed loses that node's entry.
  ghost predicate FailedInsert(f: Forest, g: Forest, ls: Path, fault: Fault) {
    if ls in f && fault.EntryFault? then g == SetEntry(f, ls, None)
    else g == f || (var k := Depth(f, ls, 0); ls[..k] in f && g == Unsort(f, ls[..k]))
  }

  // The two outcomes of an insert.
  ghost predicate Inserted(f: Forest, g: Forest, ls: Path, e: Entry, rc: int, fault: Fault) {
    && rc == (if fault.NoFault? then 0 else -1)
    && (fault.NoFault? ==> [] in f && g == InsertForest(f, ls, e))
    && (!fault.NoFault? ==> FailedInsert(f, g, ls, fault))
  }

  lemma InsertShape(f: Forest, g: Forest, ls: Path, e: Entry, rc: int, fault: Fault)
    requires Shape(f)
    requires rc == if fault.NoFault? then 0 else -1
    requires fault.NoFault? ==> g == InsertForest(f, ls, e)
    requires !fault.NoFault? ==> FailedInsert(f, g, ls, fault)
    ensures Shape(g) && Inserted(f, g, ls, e, rc, fault)
  {
    if fault.NoFault? { InsertIsMapUpdate(f, ls, e); } else { FailedInsertMeaning(f, g, ls, fault); }
  }

  // What an insert does to the table.
  function InsertTable(t: Table, ls: Path, e: Entry, fault: Fault): Table {
    match fault
    case NoFault => t[ls := e]
    case EntryFault => t - {ls}
    case _ => t
  }

  // An insert, successful or not, keeps the shape and is a map operation: the
  // path is set; or nothing happens; or, when the replacing entry could not be
  // allocated, the path's entry is gone.
  lemma InsertMeaning(f: Forest, g: Forest, ls: Path, e: Entry, rc: int, fault: Fault)
    requires Shape(f) && Inserted(f, g, ls, e, rc, fault)
    ensures Shape(g)
    ensures Entries(g) == InsertTable(Entries(f), ls, e, fault)
  {
    if fault.NoFault? {
      InsertIsMapUpdate(f, ls, e);
    } else {
      FailedInsertMeaning(f, g, ls, fault);
    }
  }

  lemma FailedInsertMeaning(f: Forest, g: Forest, ls: Path, fault: Fault)
    requires Shape(f) && FailedInsert(f, g, ls, fault)
    ensures Shape(g)
    ensures Entries(g) == if fault.EntryFault? then Entries(f) - {ls} else Entries(f)
  {
    if ls in f && fault.EntryFault? {
      SetEntryShape(f, ls, None);
    } else {
      var k := Depth(f, ls, 0);
      if ls[..k] in f { UnsortShape(f, ls[..k]); }
    }
  }

  lemma SetEntryShape(f: Forest, p: Path, e: Option<Entry>)
    requires Shape(f) && p in f
    ensures Shape(SetEntry(f, p, e))
    ensures Entries(SetEntry(f, p, e)) == if e.Some? then Entries(f)[p := e.value] else Entries(f) - {p}
  {
    RelabelShape(f, SetEntry(f, p, e));
  }

  lemma UnsortShape(f: Forest, p: Path)
    requires Shape(f) && p in f
    ensures Shape(Unsort(f, p))
    ensures Entries(Unsort(f, p)) == Entries(f)
  {
    RelabelShape(f, Unsort(f, p));
  }

  // Shape depends only on the children and on which flags are set.
  lemma RelabelShape(f: Forest, g: Forest)
    requires Shape(f) && f.Keys == g.Keys
    requires forall q :: q in f ==> g[q].kids == f[q].kids && (g[q].sorted ==> f[q].sorted)
    ensures Shape(g)
  {
    forall q | q in g ensures CellOk(g, q) {
      assert CellOk(f, q);
      CellKept(f, g, q);
    }
    forall q | q in g && q != [] ensures HasParent(g, q) {
      assert HasParent(f, q);
      ParentKept(f, g, q);
    }
  }

  // An insert is a map update: exactly one path changes, and the shape holds.
  lemma InsertIsMapUpdate(f: Forest, ls: Path, e: Entry)
    requires Shape(f)
    ensures Shape(InsertForest(f, ls, e))
    ensures Entries(InsertForest(f, ls, e)) == Entries(f)[ls := e]
  {
    var k := Depth(f, ls, 0);
    assert ls[..0] == [];
    NoneBelow(f, ls, k);
    ChainShape(f, ls, k, |ls|);
    ChainEntries(f, ls, k, |ls|);
    assert ls[..|ls|] == ls;
    SetEntryShape(Chain(f, ls, k, |ls|), ls, Some(e));
  }

  // ------------------------------------------------------------------
  // Sorting
  // ------------------------------------------------------------------

  function InsertSorted(x: Label, s: seq<Label>): seq<Label> {
    if s == [] then [x]
    else if Less(x, s[0]) then [x] + s
    else [s[0]] + InsertSorted(x, s[1..])
  }

  function SortLabels(s: seq<Label>): seq<Label> {
    if s == [] then [] else InsertSorted(s[0], SortLabels(s[1..]))
  }

  lemma {:induction false} InsertSortedElements(x: Label, s: seq<Label>)
    ensures multiset(InsertSorted(x, s)) == multiset{x} + multiset(s)
    ensures forall y :: y in InsertSorted(x, s) <==> y == x || y in s
  {
    if s != [] {
      assert s == [s[0]] + s[1..];
      if !Less(x, s[0]) { InsertSortedElements(x, s[1..]); }
    }
    forall y ensures y in InsertSorted(x, s) <==> y == x || y in s {
      assert y in InsertSorted(x, s) <==> y in multiset(InsertSorted(x, s));
    }
  }

  lemma {:induction false} InsertSortedOk(x: Label, s: seq<Label>)
    requires Ascending(s) && x !in s
    ensures Ascending(InsertSorted(x, s))
  {
    if s != [] {
      LabelOrder(x, s[0], x);
      if Less(x, s[0]) {
        forall j | 0 <= j < |s| ensures Less(x, s[j]) {
          LabelOrder(x, s[0], s[j]);
        }
      } else {
        var rest := s[1..];
        assert forall i :: 0 <= i < |rest| ==> rest[i] == s[i + 1];
        InsertSortedOk(x, rest);
        InsertSortedElements(x, rest);
        var t := InsertSorted(x, rest);
        forall j | 0 <= j < |t| ensures Less(s[0], t[j]) {
          assert t[j] in t;
        }
      }
    }
  }

  lemma {:induction false} SortLabelsOk(s: seq<Label>)
    requires Distinct(s)
    ensures Ascending(SortLabels(s))
    ensures multiset(SortLabels(s)) == multiset(s)
    ensures forall x :: x in SortLabels(s) <==> x in s
  {
    if s != [] {
      assert s == [s[0]] + s[1..];
      var rest := s[1..];
      assert forall i :: 0 <= i < |rest| ==> rest[i] == s[i + 1];
      SortLabelsOk(rest);
      InsertSortedOk(s[0], SortLabels(rest));
      InsertSortedElements(s[0], SortLabels(rest));
    }
    forall x ensures x in SortLabels(s) <==> x in s {
      assert x in multiset(SortLabels(s)) <==> x in multiset(s);
    }
  }

  function SortedCell(c: Cell): Cell {
    Cell(SortLabels(c.kids), true, c.entry)
  }

  // Some nodes sorted, the others as they were.
  ghost predicate PartSorted(f: Forest, g: Forest) {
    f.Keys == g.Keys && forall q :: q in f ==> g[q] == f[q] || g[q] == SortedCell(f[q])
  }

  lemma PartSortedCell(f: Forest, g: Forest, q: Path)
    requires Shape(f) && PartSorted(f, g) && q in f
    ensures CellOk(g, q)
    ensures forall x :: x in g[q].kids <==> x in f[q].kids
  {
    assert CellOk(f, q);
    SortLabelsOk(f[q].kids);
    if g[q] == SortedCell(f[q]) {
      AscendingIsDistinct(g[q].kids);
      forall i | 0 <= i < |g[q].kids| ensures q + [g[q].kids[i]] in g {
        assert g[q].kids[i] in f[q].kids;
        KidIffNode(f, q, g[q].kids[i]);
      }
    }
  }

  // Sorting any set of nodes is invisible to the table and keeps the shape.
  lemma PartSortedShape(f: Forest, g: Forest)
    requires Shape(f) && PartSorted(f, g)
    ensures Shape(g)
    ensures Entries(g) == Entries(f)
  {
    forall q | q in g ensures CellOk(g, q) {
      PartSortedCell(f, g, q);
    }
    forall q | q in g && q != [] ensures HasParent(g, q) {
      assert HasParent(f, q);
      PartSortedCell(f, g, Front(q));
    }
  }

  // Every node at or below p sorted.
  function SortForest(f: Forest, p: Path): Forest {
    map q | q in f :: if p <= q then SortedCell(f[q]) else f[q]
  }

  // Sorting below p is invisible to the table and leaves every child array there
  // ascending and marked sorted.
  lemma SortForestShape(f: Forest, p: Path)
    requires Shape(f)
    ensures Shape(SortForest(f, p))
    ensures Entries(SortForest(f, p)) == Entries(f)
    ensures forall q :: q in f && p <= q ==> SortForest(f, p)[q].sorted && Ascending(SortForest(f, p)[q].kids)
  {
    var g := SortForest(f, p);
    PartSortedShape(f, g);
    forall q | q in f && p <= q ensures Ascending(g[q].kids) {
      PartSortedCell(f, g, q);
    }
  }

  // p itself and everything below its first i children (in sorted order) done.
  function SortTo(f: Forest, p: Path, i: nat): Forest
    requires p in f
  {
    map q | q in f :: if q == p || Under(p, SortLabels(f[p].kids), i, q) then SortedCell(f[q]) else f[q]
  }

  predicate Under(p: Path, kids: seq<Label>, i: nat, q: Path) {
    p < q && exists j :: 0 <= j < i && j < |kids| && kids[j] == q[|p|]
  }

  lemma SortToShape(f: Forest, p: Path, i: nat)
    requires Shape(f) && p in f
    ensures var g := SortTo(f, p, i);
      PartSorted(f, g) && Shape(g) && g.Keys == f.Keys && g[p] == SortedCell(f[p])
  {
    PartSortedShape(f, SortTo(f, p, i));
  }

  lemma SortToStart(f: Forest, p: Path)
    requires p in f
    ensures f[p := SortedCell(f[p])] == SortTo(f, p, 0)
  {
  }

  lemma SortToNext(f: Forest, p: Path, i: nat)
    requires Shape(f) && p in f && i < |SortLabels(f[p].kids)|
    ensures SortForest(SortTo(f, p, i), p + [SortLabels(f[p].kids)[i]]) == SortTo(f, p, i + 1)
  {
    var kids := SortLabels(f[p].kids);
    assert CellOk(f, p);
    SortLabelsOk(f[p].kids);
    AscendingIsDistinct(kids);
    forall q | q in f
      ensures p + [kids[i]] <= q <==> p < q && kids[i] == q[|p|]
      ensures Under(p, kids, i + 1, q) <==> Under(p, kids, i, q) || (p < q && kids[i] == q[|p|])
    {
      if p < q && kids[i] == q[|p|] {
        assert q == q[..|p|] + [q[|p|]] + q[|p| + 1..];
        assert Under(p, kids, i + 1, q);
      }
    }
  }

  lemma SortToAll(f: Forest, p: Path)
    requires Shape(f) && p in f
    ensures SortTo(f, p, |SortLabels(f[p].kids)|) == SortForest(f, p)
  {
    var kids := SortLabels(f[p].kids);
    assert CellOk(f, p);
    SortLabelsOk(f[p].kids);
    forall q | q in f && p < q ensures Under(p, kids, |kids|, q) {
      PrefixClosed(f, q, |p| + 1);
      assert q[..|p| + 1] == p + [q[|p|]];
      KidIffNode(f, p, q[|p|]);
      var j :| 0 <= j < |kids| && kids[j] == q[|p|];
    }
  }
}
