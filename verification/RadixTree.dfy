// src/radix_tree.c on the heap: nodes with growable child arrays and a sorted
// flag per node.  A ghost index maps every path to its node and a ghost value of
// type Forest says what the nodes hold; every method states how that value
// changes, and the tree's shape and meaning are then facts of module Forest.
module RadixTree {
  import opened Prelude
  import opened Labels
  import opened Forest
  import opened Verdict
  import opened Names

  class Node {
    const text: Label
    var entry: Option<Entry>
    var children: array<Node?>
    var count: nat
    var sorted: bool

    // node_create with both of its allocations succeeding.
    constructor (text: Label)
      ensures this.text == text
      ensures entry == None && count == 0 && sorted
      ensures fresh(children) && children.Length == 0
    {
      this.text := text;
      entry, count, sorted := None, 0, true;
      children := new Node?[0];
    }
  }

  type Index = map<Path, Node>

  ghost function Nodes(at: Index): set<object> {
    set p | p in at :: at[p] as object
  }

  ghost function NodeSet(at: Index): set<Node> {
    set p | p in at :: at[p]
  }

  ghost function Arrays(at: Index): set<object>
    reads Nodes(at)
  {
    set p | p in at :: at[p].children as object
  }

  // Node at[p] holds cell c: its children are the nodes one label further down.
  ghost predicate Holds(at: Index, p: Path, c: Cell)
    requires p in at
    reads at[p], at[p].children
  {
    var n := at[p];
    && n.sorted == c.sorted
    && n.entry == c.entry
    && n.count == |c.kids| <= n.children.Length
    && forall i :: 0 <= i < n.count ==> p + [c.kids[i]] in at && n.children[i] == at[p + [c.kids[i]]]
  }

  ghost predicate Apart(m: Node, n: Node)
    reads m, n
  {
    m != n && m.children != n.children
  }

  // The heap behind the index is the tree f: count never exceeds capacity, no
  // two nodes share a child array, and every node carries the last label of its
  // path.
  ghost predicate Represents(at: Index, f: Forest)
    reads Nodes(at), Arrays(at)
  {
    && f.Keys == at.Keys
    && (forall p {:trigger Holds(at, p, f[p])} :: p in at ==> Holds(at, p, f[p]))
    && (forall p, q {:trigger Apart(at[p], at[q])} :: p in at && q in at && p != q ==> Apart(at[p], at[q]))
    && (forall p :: p in at && p != [] ==> at[p].text == Last(p))
  }

  // ------------------------------------------------------------------
  // find_child: binary search in a sorted node, a linear scan otherwise.  Both
  // give the child the index has for that label.
  // ------------------------------------------------------------------

  method FindChild(parent: Node, key: Label, ghost at: Index, ghost f: Forest, ghost p: Path) returns (child: Node?)
    requires Represents(at, f) && Shape(f)
    requires p in at && at[p] == parent
    ensures child == null <==> p + [key] !in at
    ensures child != null ==> child == at[p + [key]]
  {
    ghost var kids := f[p].kids;
    assert Holds(at, p, f[p]);
    assert CellOk(f, p);
    KidIffNode(f, p, key);
    assert forall i :: 0 <= i < parent.count ==> parent.children[i] != null && Last(p + [kids[i]]) == kids[i];
    if parent.sorted {
      child := SearchSorted(parent, key, kids);
    } else {
      child := ScanUnsorted(parent, key, kids);
    }
  }

  ghost predicate Spells(n: Node, kids: seq<Label>)
    reads n, n.children
  {
    && n.count == |kids| <= n.children.Length
    && forall i :: 0 <= i < n.count ==> n.children[i] != null && n.children[i].text == kids[i]
  }

  method SearchSorted(parent: Node, key: Label, ghost kids: seq<Label>) returns (child: Node?)
    requires Spells(parent, kids) && Ascending(kids)
    ensures child == null <==> key !in kids
    ensures child != null ==> exists i :: 0 <= i < |kids| && kids[i] == key && child == parent.children[i]
  {
    var lo, hi := 0, parent.count;
    while lo < hi
      invariant 0 <= lo <= hi <= parent.count
      invariant forall i :: 0 <= i < lo ==> Less(kids[i], key)
      invariant forall i :: hi <= i < parent.count ==> Less(key, kids[i])
    {
      var mid := lo + (hi - lo) / 2;
      var cand := parent.children[mid];
      var cmp := LabelCompare(cand.text, key);
      assert kids[mid] == cand.text;
      LabelOrder(cand.text, key, key);
      if cmp == 0 {
        return cand;
      }
      if cmp < 0 {
        forall i | 0 <= i < mid + 1 ensures Less(kids[i], key) {
          if i < mid { LabelOrder(kids[i], kids[mid], key); }
        }
        lo := mid + 1;
      } else {
        CompareFlip(key, cand.text);
        forall i | mid <= i < parent.count ensures Less(key, kids[i]) {
          if mid < i { LabelOrder(key, kids[mid], kids[i]); }
        }
        hi := mid;
      }
    }
    forall i | 0 <= i < |kids| ensures kids[i] != key {
      CompareZero(kids[i], key);
      CompareZero(key, kids[i]);
    }
    return null;
  }

  method ScanUnsorted(parent: Node, key: Label, ghost kids: seq<Label>) returns (child: Node?)
    requires Spells(parent, kids)
    ensures child == null <==> key !in kids
    ensures child != null ==> exists i :: 0 <= i < |kids| && kids[i] == key && child == parent.children[i]
  {
    for i := 0 to parent.count
      invariant forall j :: 0 <= j < i ==> kids[j] != key
    {
      var c := parent.children[i];
      if c.text == key {
        return c;
      }
    }
    return null;
  }

  // ------------------------------------------------------------------
  // Frames: what a write to one node means for the represented tree
  // ------------------------------------------------------------------

  twostate predicate Untouched(n: Node)
    reads n, n.children
  {
    && n.entry == old(n.entry)
    && n.count == old(n.count)
    && n.sorted == old(n.sorted)
    && n.children == old(n.children)
    && (forall i :: 0 <= i < n.children.Length ==> n.children[i] == old(n.children[i]))
  }

  twostate lemma KeepsHolding(at: Index, new g: Index, new q: Path, new c: Cell)
    requires q in at && old(Holds(at, q, c)) && Untouched(at[q])
    requires q in g && g[q] == at[q]
    requires forall i :: 0 <= i < |c.kids| && q + [c.kids[i]] in at ==> q + [c.kids[i]] in g && g[q + [c.kids[i]]] == at[q + [c.kids[i]]]
    ensures Holds(g, q, c)
  {
  }

  // Only node p was written; what it holds now decides what the index represents.
  twostate lemma CellWritten(at: Index, new f: Forest, new p: Path, new c: Cell)
    requires old(Represents(at, f)) && p in at
    requires Holds(at, p, c)
    requires at[p].children == old(at[p].children) || fresh(at[p].children)
    requires forall q :: q in at && q != p ==> Untouched(at[q])
    ensures Represents(at, f[p := c])
  {
    forall q | q in at ensures Holds(at, q, f[p := c][q]) {
      if q != p {
        assert old(Holds(at, q, f[q]));
        KeepsHolding(at, at, q, f[q]);
      }
    }
    forall q, r | q in at && r in at && q != r ensures Apart(at[q], at[r]) {
      assert old(Apart(at[q], at[r]));
    }
  }

  // No node of the index was written.
  twostate lemma StillRepresents(at: Index, new f: Forest)
    requires old(Represents(at, f))
    requires forall q :: q in at ==> Untouched(at[q])
    ensures Represents(at, f)
  {
    forall q | q in at ensures Holds(at, q, f[q]) {
      assert old(Holds(at, q, f[q]));
      KeepsHolding(at, at, q, f[q]);
    }
    forall q, r | q in at && r in at && q != r ensures Apart(at[q], at[r]) {
      assert old(Apart(at[q], at[r]));
    }
  }

  // ------------------------------------------------------------------
  // append_child
  // ------------------------------------------------------------------

  // A full array grows to twice its length, an empty one to four.
  function GrownLength(count: nat, length: nat): nat {
    if count < length then length else if length == 0 then 4 else 2 * length
  }

  // realloc may fail, and then nothing has changed; otherwise the child is last
  // and the parent no longer counts as sorted.
  method AppendChild(parent: Node, child: Node) returns (ok: bool)
    requires parent.count <= parent.children.Length
    modifies parent, parent.children
    ensures parent.children == old(parent.children) || fresh(parent.children)
    ensures parent.entry == old(parent.entry)
    ensures !ok ==> old(parent.count == parent.children.Length) && Untouched(parent)
    ensures ok ==> parent.children.Length == GrownLength(old(parent.count), old(parent.children.Length))
    ensures old(parent.count < parent.children.Length) ==> parent.children == old(parent.children)
    ensures ok ==> !parent.sorted && parent.count == old(parent.count) + 1 <= parent.children.Length
    ensures ok ==> forall i :: 0 <= i < old(parent.count) ==> parent.children[i] == old(parent.children[i])
    ensures ok ==> parent.children[old(parent.count)] == child
  {
    if parent.count == parent.children.Length {
      var newCap := if parent.children.Length == 0 then 4 else parent.children.Length * 2;
      if * {
        return false;
      }
      var grown := new Node?[newCap];
      forall i | 0 <= i < parent.count {
        grown[i] := parent.children[i];
      }
      parent.children := grown;
    }
    parent.children[parent.count] := child;
    parent.count := parent.count + 1;
    parent.sorted := false;
    ok := true;
  }

  twostate lemma ChildAppended(at: Index, new f: Forest, new p: Path, new child: Node)
    requires old(Represents(at, f)) && p in at && p + [child.text] !in at
    requires at[p].children == old(at[p].children) || fresh(at[p].children)
    requires at[p].entry == old(at[p].entry) && old(at[p].count <= at[p].children.Length)
    requires !at[p].sorted && at[p].count == old(at[p].count) + 1 <= at[p].children.Length
    requires forall i :: 0 <= i < old(at[p].count) ==> at[p].children[i] == old(at[p].children[i])
    requires at[p].children[old(at[p].count)] == child
    requires forall q :: q in at && q != p ==> Untouched(at[q])
    requires child.entry == None && child.count == 0 && child.sorted
    requires forall q :: q in at ==> Apart(at[q], child)
    ensures Represents(at[p + [child.text] := child], AddChild(f, p, child.text))
  {
    var r := p + [child.text];
    var g, h := at[r := child], AddChild(f, p, child.text);
    assert |r| != |p|;
    forall q | q in g ensures Holds(g, q, h[q]) {
      if q == p {
        assert old(Holds(at, p, f[p]));
        assert h[p].kids == f[p].kids + [child.text];
      } else if q != r {
        assert old(Holds(at, q, f[q]));
        KeepsHolding(at, g, q, f[q]);
      }
    }
    forall q, s | q in g && s in g && q != s ensures Apart(g[q], g[s]) {
      if q in at && s in at { assert old(Apart(at[q], at[s])); }
      else if q == r { assert Apart(at[s], child); }
      else { assert Apart(at[q], child); }
    }
    assert Last(r) == child.text;
  }

  // node_create and append_child for a missing child; either allocation may
  // fail, and then the tree is as it was.
  method NewChild(parent: Node, key: Label, ghost g: Index, ghost h: Forest, ghost p: Path) returns (child: Node?, ghost fault: Fault)
    requires Represents(g, h)
    requires p in g && parent == g[p] && p + [key] !in g
    modifies parent, parent.children
    ensures parent.children == old(parent.children) || fresh(parent.children)
    ensures child == null ==> (fault.NodeFault? || fault.GrowFault?) && Represents(g, h)
    ensures child != null ==> fault.NoFault? && fresh(child) && fresh(child.children)
    ensures child != null ==> Represents(g[p + [key] := child], AddChild(h, p, key))
  {
    if * {
      return null, NodeFault;
    }
    var node := new Node(key);
    assert Holds(g, p, h[p]);
    forall q | q in g && q != p ensures Apart(g[q], parent) {
      assert Apart(g[q], g[p]);
    }
    var ok := AppendChild(parent, node);
    if !ok {
      KeepsHolding(g, g, p, h[p]);
      CellWritten(g, h, p, h[p]);
      assert h[p := h[p]] == h;
      return null, GrowFault;
    }
    ChildAppended(g, h, p, node);
    return node, NoFault;
  }

  // ------------------------------------------------------------------
  // insert_path
  // ------------------------------------------------------------------

  // What the walk of insert_path has built after i labels, the first k of which
  // were there before.
  ghost predicate Building(base: Index, f: Forest, g: Index, ls: Path, k: nat, i: nat)
    reads Nodes(g), Arrays(g)
  {
    && k <= i <= |ls| && Shape(f) && f.Keys == base.Keys
    && (forall q :: q in base ==> q in g && g[q] == base[q])
    && (forall j :: 0 <= j <= k ==> ls[..j] in f)
    && (k < i ==> ls[..k + 1] !in f)
    && Represents(g, Chain(f, ls, k, i))
  }

  // first_new_parent is set exactly when something has been appended.
  ghost predicate Rewind(firstNewParent: Node?, base: Index, g: Index, ls: Path, k: nat, i: nat)
    requires k <= i <= |ls|
  {
    if firstNewParent == null then k == i && g == base
    else k < i && ls[..k] in base && firstNewParent == base[ls[..k]]
  }

  lemma BuildingStarts(at: Index, f: Forest, ls: Path)
    requires Shape(f) && Represents(at, f)
    ensures ls[..0] == [] && [] in at
    ensures Building(at, f, at, ls, 0, 0) && Rewind(null, at, at, ls, 0, 0)
  {
    assert ls[..0] == [];
  }

  lemma NothingBuilt(base: Index, f: Forest, ls: Path, k: nat)
    requires Building(base, f, base, ls, k, k)
    ensures Represents(base, f)
  {
  }

  // The walk stays on an existing node.
  method StepDown(current: Node, ls: Path, i: nat, ghost base: Index, ghost f: Forest, ghost g: Index, ghost k: nat)
    returns (child: Node?)
    requires Building(base, f, g, ls, k, i) && i < |ls|
    requires ls[..i] in g && current == g[ls[..i]]
    ensures child != null ==> k == i && ls[..i + 1] in g && child == g[ls[..i + 1]]
    ensures child != null ==> Building(base, f, g, ls, i + 1, i + 1)
    ensures child == null ==> ls[..i + 1] !in g && ls[..k + 1] !in f && Building(base, f, g, ls, k, i)
  {
    ChainNext(f, ls, k, i);
    child := FindChild(current, ls[i], g, Chain(f, ls, k, i), ls[..i]);
  }

  // Every node of the index and every child array belongs to own.
  ghost predicate Within(g: Index, own: set<object>)
    reads Nodes(g)
  {
    forall q :: q in g ==> g[q] in own && g[q].children in own
  }

  // The walk creates the next node, or fails to and leaves things as they were.
  method StepNew(current: Node, ls: Path, i: nat, ghost base: Index, ghost f: Forest, ghost g: Index, ghost k: nat)
    returns (child: Node?, ghost fault: Fault)
    requires Building(base, f, g, ls, k, i) && i < |ls|
    requires ls[..i] in g && current == g[ls[..i]]
    requires ls[..i + 1] !in g && ls[..k + 1] !in f
    modifies current, current.children
    ensures current.children == old(current.children) || fresh(current.children)
    ensures child == null ==> (fault.NodeFault? || fault.GrowFault?) && Building(base, f, g, ls, k, i)
    ensures child != null ==> fault.NoFault? && fresh(child) && fresh(child.children)
    ensures child != null ==> Building(base, f, g[ls[..i + 1] := child], ls, k, i + 1)
  {
    ChainNext(f, ls, k, i);
    child, fault := NewChild(current, ls[i], g, Chain(f, ls, k, i), ls[..i]);
  }

  // children_count--: the last child is out of reach.
  method DropLast(parent: Node, ghost g: Index, ghost h: Forest, ghost p: Path)
    requires Represents(g, h) && p in g && parent == g[p]
    requires h[p].kids != []
    modifies parent`count
    ensures Represents(g, h[p := h[p].(kids := Front(h[p].kids))])
  {
    assert Holds(g, p, h[p]);
    forall q | q in g && q != p ensures Apart(g[q], parent) {
      assert Apart(g[q], g[p]);
    }
    parent.count := parent.count - 1;
    CellWritten(g, h, p, h[p].(kids := Front(h[p].kids)));
  }

  // Forgetting the nodes of an undone chain.
  lemma RepresentsBase(base: Index, f: Forest, g: Index, h: Forest, ls: Path, k: nat, i: nat)
    requires Shape(f) && f.Keys == base.Keys && k < i <= |ls|
    requires forall q :: q in base ==> q in g && g[q] == base[q]
    requires ls[..k] in f && ls[..k + 1] !in f
    requires h.Keys == g.Keys && Represents(g, h)
    requires forall q :: q in f && q != ls[..k] ==> h[q] == f[q]
    requires h[ls[..k]] == f[ls[..k]].(sorted := false)
    ensures Represents(base, Unsort(f, ls[..k]))
  {
    var u := Unsort(f, ls[..k]);
    forall q | q in base ensures Holds(base, q, u[q]) {
      assert Holds(g, q, h[q]);
      assert CellOk(f, q);
    }
    forall q, r | q in base && r in base && q != r ensures Apart(base[q], base[r]) {
      assert Apart(g[q], g[r]);
    }
  }

  // The walk is undone: the popped child is the one this call appended.
  method StepBack(parent: Node, ghost ls: Path, ghost i: nat, ghost base: Index, ghost f: Forest, ghost g: Index, ghost k: nat)
    requires Building(base, f, g, ls, k, i) && k < i
    requires ls[..k] in base && parent == base[ls[..k]]
    modifies parent`count
    ensures ls[..k] in f && Represents(base, Unsort(f, ls[..k]))
    ensures Depth(f, ls, 0) == k
  {
    ghost var p, h := ls[..k], Chain(f, ls, k, i);
    NoneBelow(f, ls, k);
    ChainCells(f, ls, k, i);
    DepthUnique(f, ls, 0, k);
    DropLast(parent, g, h, p);
    RepresentsBase(base, f, g, h[p := h[p].(kids := Front(h[p].kids))], ls, k, i);
  }

  // One round of the loop of insert_path: find the child, or create it, or fail
  // and unlink what this call has appended.  parent is first_new_parent.
  method Step(current: Node, parent: Node?, ls: Path, i: nat, ghost base: Index, ghost f: Forest, ghost g: Index, ghost k: nat, ghost own: set<object>)
    returns (child: Node?, parent': Node?, ghost g': Index, ghost k': nat, ghost own': set<object>, ghost fault: Fault, ghost left: Forest)
    requires Within(g, own)
    requires Building(base, f, g, ls, k, i) && i < |ls|
    requires ls[..i] in g && current == g[ls[..i]]
    requires Rewind(parent, base, g, ls, k, i)
    modifies current, current.children, (if parent == null then {} else {parent})`count
    ensures own <= own' && fresh(own' - own) && Within(g', own')
    ensures forall q :: q in g ==> q in g' && g'[q] == g[q]
    ensures child != null <==> fault.NoFault?
    ensures child != null ==> k' <= i + 1 && Building(base, f, g', ls, k', i + 1) && Rewind(parent', base, g', ls, k', i + 1)
    ensures child != null ==> ls[..i + 1] in g' && child == g'[ls[..i + 1]]
    ensures child == null ==> Represents(base, left) && FailedInsert(f, left, ls, fault)
  {
    hide Building, Represents;
    fault, left, g', k', parent', own' := NoFault, f, g, k, parent, own;
    child := StepDown(current, ls, i, base, f, g, k);
    if child != null {
      k' := i + 1;
    } else {
      child, fault := StepNew(current, ls, i, base, f, g, k);
      own' := own' + {current.children};
      if child != null {
        g', own' := g[ls[..i + 1] := child], own' + {child, child.children};
        if parent == null {
          parent' := current;
        }
      } else if parent != null {
        StepBack(parent, ls, i, base, f, g, k);
        left := Unsort(f, ls[..k]);
      } else {
        NothingBuilt(base, f, ls, k);
      }
    }
  }

  // The end of the walk: the note is duplicated first, then the old entry is
  // freed, then the new one allocated.
  method SetEntryAt(current: Node, e: Entry, ghost g: Index, ghost h: Forest, ghost p: Path) returns (ok: bool, ghost fault: Fault)
    requires Represents(g, h) && p in g && current == g[p]
    modifies current`entry
    ensures fault.NoFault? || fault.NoteFault? || fault.EntryFault?
    ensures ok <==> fault.NoFault?
    ensures Represents(g, match fault case NoteFault => h case EntryFault => SetEntry(h, p, None) case _ => SetEntry(h, p, Some(e)))
  {
    assert Holds(g, p, h[p]);
    forall q | q in g && q != p ensures Apart(g[q], current) {
      assert Apart(g[q], g[p]);
    }
    if e.note.Some? {
      if * {
        return false, NoteFault;
      }
    }
    current.entry := None;
    if * {
      CellWritten(g, h, p, h[p].(entry := None));
      return false, EntryFault;
    }
    current.entry := Some(e);
    CellWritten(g, h, p, h[p].(entry := Some(e)));
    return true, NoFault;
  }

  // Setting the entry and, when that fails, unlinking what was appended.
  method Finish(current: Node, firstNewParent: Node?, ls: Path, e: Entry, ghost base: Index, ghost f: Forest, ghost g: Index, ghost k: nat)
    returns (ok: bool, ghost fault: Fault, ghost left: Forest)
    requires Building(base, f, g, ls, k, |ls|)
    requires ls in g && current == g[ls]
    requires Rewind(firstNewParent, base, g, ls, k, |ls|)
    modifies current`entry, (if firstNewParent == null then {} else {firstNewParent})`count
    ensures ok <==> fault.NoFault?
    ensures ok ==> Represents(g, InsertForest(f, ls, e))
    ensures !ok ==> Represents(base, left) && FailedInsert(f, left, ls, fault)
  {
    ghost var h := Chain(f, ls, k, |ls|);
    assert ls[..|ls|] == ls;
    DepthUnique(f, ls, 0, k);
    if k < |ls| {
      NoneBelow(f, ls, k);
      ChainCells(f, ls, k, |ls|);
      assert SetEntry(h, ls, None) == h;
    }
    ok, fault := SetEntryAt(current, e, g, h, ls);
    left := f;
    if !ok {
      if firstNewParent != null {
        StepBack(firstNewParent, ls, |ls|, base, f, g, k);
        left := Unsort(f, ls[..k]);
      } else if fault.EntryFault? {
        left := SetEntry(f, ls, None);
      }
    }
  }

  // The loop of insert_path.  current is null when an allocation failed.
  method Walk(root: Node, ls: Path, ghost at: Index, ghost f: Forest, ghost own: set<object>)
    returns (current: Node?, firstNewParent: Node?, ghost g: Index, ghost k: nat, ghost own': set<object>, ghost fault: Fault, ghost after: Forest)
    requires Shape(f) && Represents(at, f) && at[[]] == root && Within(at, own)
    modifies own
    ensures own <= own' && fresh(own' - own) && Within(g, own')
    ensures forall q :: q in at ==> q in g && g[q] == at[q]
    ensures current != null <==> fault.NoFault?
    ensures current != null ==> k <= |ls| && Building(at, f, g, ls, k, |ls|) && Rewind(firstNewParent, at, g, ls, k, |ls|)
    ensures current != null ==> ls in g && current == g[ls]
    ensures current == null ==> g == at && Represents(at, after) && FailedInsert(f, after, ls, fault)
  {
    hide Building, Represents, FailedInsert, Shape;
    g, k, own', after, fault := at, 0, own, f, NoFault;
    BuildingStarts(at, f, ls);
    current, firstNewParent := root, null;
    var i := 0;
    while i < |ls|
      invariant k <= i <= |ls|
      invariant Building(at, f, g, ls, k, i)
      invariant own <= own' && fresh(own' - own) && Within(g, own')
      invariant forall q :: q in at ==> q in g && g[q] == at[q]
      invariant ls[..i] in g && g[ls[..i]] == current
      invariant Rewind(firstNewParent, at, g, ls, k, i)
      invariant fault.NoFault?
    {
      current, firstNewParent, g, k, own', fault, after := Step(current, firstNewParent, ls, i, at, f, g, k, own');
      if current == null {
        g := at;
        return;
      }
      i := i + 1;
    }
    assert ls[..i] == ls;
  }

  // Walks down ls from the root, creating the missing nodes, then replaces the
  // entry at the end.  Any allocation may fail; what this call has appended is
  // unlinked then.
  method InsertPath(root: Node, ls: Path, e: Entry, ghost at: Index, ghost f: Forest, ghost own: set<object>)
    returns (rc: int, ghost fault: Fault, ghost g: Index, ghost after: Forest, ghost own': set<object>)
    requires Shape(f) && Represents(at, f) && at[[]] == root && Within(at, own)
    modifies own
    ensures own <= own' && fresh(own' - own) && Within(g, own')
    ensures forall q :: q in at ==> q in g && g[q] == at[q]
    ensures Represents(g, after)
    ensures rc == if fault.NoFault? then 0 else -1
    ensures fault.NoFault? ==> after == InsertForest(f, ls, e)
    ensures !fault.NoFault? ==> FailedInsert(f, after, ls, fault)
  {
    var current, firstNewParent;
    ghost var k;
    current, firstNewParent, g, k, own', fault, after := Walk(root, ls, at, f, own);
    if current == null {
      return -1, fault, g, after, own';
    }
    var ok;
    ok, fault, after := Finish(current, firstNewParent, ls, e, at, f, g, k);
    if ok {
      after := InsertForest(f, ls, e);
      rc := 0;
    } else {
      g := at;
      rc := -1;
    }
  }

  // ------------------------------------------------------------------
  // sort_children_recursive
  // ------------------------------------------------------------------

  ghost predicate Texts(kids: seq<Node?>, labels: seq<Label>) {
    |kids| == |labels| && forall i :: 0 <= i < |kids| ==> kids[i] != null && kids[i].text == labels[i]
  }

  ghost predicate DistinctTexts(kids: seq<Node?>) {
    && (forall j :: 0 <= j < |kids| ==> kids[j] != null)
    && (forall j, k :: 0 <= j < k < |kids| ==> kids[j].text != kids[k].text)
  }

  // The first i nodes are in order and below all others.
  ghost predicate Placed(kids: seq<Node?>, i: nat)
    requires DistinctTexts(kids)
  {
    forall j, k :: 0 <= j < i && j < k < |kids| ==> Less(kids[j].text, kids[k].text)
  }

  ghost predicate LeastAt(kids: seq<Node?>, i: nat, m: nat, n: nat)
    requires DistinctTexts(kids) && n <= |kids|
  {
    i <= m < n && forall j :: i <= j < n && j != m ==> Less(kids[m].text, kids[j].text)
  }

  ghost function Swapped(kids: seq<Node?>, i: nat, m: nat): seq<Node?>
    requires i < |kids| && m < |kids|
  {
    kids[i := kids[m]][m := kids[i]]
  }

  lemma SwapPlaces(kids: seq<Node?>, i: nat, m: nat)
    requires DistinctTexts(kids) && Placed(kids, i) && LeastAt(kids, i, m, |kids|)
    ensures DistinctTexts(Swapped(kids, i, m)) && Placed(Swapped(kids, i, m), i + 1)
    ensures multiset(Swapped(kids, i, m)) == multiset(kids)
  {
  }

  // The least label among children[i..n].
  method LeastFrom(a: array<Node?>, i: nat, n: nat) returns (m: nat)
    requires i < n <= a.Length && DistinctTexts(a[..n])
    ensures LeastAt(a[..n], i, m, n)
  {
    ghost var kids := a[..n];
    assert forall j :: 0 <= j < n ==> a[j] == kids[j];
    m := i;
    for k := i + 1 to n
      invariant LeastAt(kids, i, m, k)
    {
      LabelOrder(kids[k].text, kids[m].text, kids[m].text);
      if LabelCompare(a[k].text, a[m].text) < 0 {
        forall j | i <= j < k ensures Less(kids[k].text, kids[j].text) {
          LabelOrder(kids[k].text, kids[m].text, kids[j].text);
        }
        m := k;
      }
    }
  }

  // Stands for the C library's qsort with node_ptr_compare.
  method SortNodes(a: array<Node?>, n: nat)
    requires n <= a.Length && DistinctTexts(a[..n])
    modifies a
    ensures DistinctTexts(a[..n]) && Placed(a[..n], n)
    ensures multiset(a[..n]) == multiset(old(a[..n]))
  {
    for i := 0 to n
      invariant DistinctTexts(a[..n]) && Placed(a[..n], i)
      invariant multiset(a[..n]) == multiset(old(a[..n]))
    {
      var m := LeastFrom(a, i, n);
      SwapPlaces(a[..n], i, m);
      ghost var swapped := Swapped(a[..n], i, m);
      a[i], a[m] := a[m], a[i];
      assert a[..n] == swapped;
    }
  }

  ghost function TextsOf(kids: seq<Node?>): (r: seq<Label>)
    requires forall i :: 0 <= i < |kids| ==> kids[i] != null
    ensures Texts(kids, r)
  {
    seq(|kids|, i requires 0 <= i < |kids| => var k: Node? := kids[i]; assert k != null; k.text)
  }

  lemma SameNodesSameTexts(kids: seq<Node?>, sorted: seq<Node?>, labels: seq<Label>, texts: seq<Label>)
    requires Texts(kids, labels) && Texts(sorted, texts) && multiset(sorted) == multiset(kids)
    ensures forall i :: 0 <= i < |sorted| ==> sorted[i] in kids
    ensures forall x :: x in texts ==> x in labels
  {
    forall i | 0 <= i < |sorted| ensures sorted[i] in kids && texts[i] in labels {
      assert sorted[i] in multiset(sorted);
      var j :| 0 <= j < |kids| && kids[j] == sorted[i];
      assert labels[j] == texts[i];
    }
  }

  // Sorted nodes carry the sorted labels, and still are the nodes of the index.
  lemma SortedTexts(kids: seq<Node?>, sorted: seq<Node?>, labels: seq<Label>)
    requires Texts(kids, labels) && Distinct(labels)
    requires DistinctTexts(sorted) && Placed(sorted, |sorted|)
    requires multiset(sorted) == multiset(kids)
    ensures Texts(sorted, SortLabels(labels))
    ensures forall i :: 0 <= i < |sorted| ==> sorted[i] in kids
  {
    var texts := TextsOf(sorted);
    SameNodesSameTexts(kids, sorted, labels, texts);
    SameNodesSameTexts(sorted, kids, texts, labels);
    SortLabelsOk(labels);
    AscendingUnique(texts, SortLabels(labels));
  }

  // The top of sort_children_recursive: one node's array is sorted and flagged.
  method SortNode(node: Node, ghost at: Index, ghost f: Forest, ghost p: Path)
    requires Represents(at, f) && Shape(f) && p in at && node == at[p]
    modifies node.children, node`sorted
    ensures Represents(at, f[p := SortedCell(f[p])])
    ensures node.count == |SortLabels(f[p].kids)|
  {
    ghost var labels := f[p].kids;
    assert Holds(at, p, f[p]) && CellOk(f, p);
    KidsCarryLabels(at, f, p);
    forall q | q in at && q != p ensures at[q] != node && at[q].children != node.children {
      assert Apart(at[q], at[p]);
    }
    SortKids(node, at, p, labels);
    node.sorted := true;
    CellWritten(at, f, p, SortedCell(f[p]));
  }

  lemma KidsCarryLabels(at: Index, f: Forest, p: Path)
    requires Represents(at, f) && p in at
    ensures at[p].count <= at[p].children.Length && Texts(at[p].children[..at[p].count], f[p].kids)
  {
    assert Holds(at, p, f[p]);
    forall i | 0 <= i < at[p].count ensures Last(p + [f[p].kids[i]]) == f[p].kids[i] { }
  }

  // qsort's effect on one node: its children in the order of their labels.
  method SortKids(node: Node, ghost at: Index, ghost p: Path, ghost labels: seq<Label>)
    requires node.count <= node.children.Length && Distinct(labels)
    requires Texts(node.children[..node.count], labels)
    requires forall i :: 0 <= i < node.count ==> p + [labels[i]] in at && node.children[i] == at[p + [labels[i]]]
    modifies node.children
    ensures node.count == |SortLabels(labels)|
    ensures forall i :: 0 <= i < node.count ==>
      p + [SortLabels(labels)[i]] in at && node.children[i] == at[p + [SortLabels(labels)[i]]]
  {
    ghost var kids := node.children[..node.count];
    if node.count > 1 {
      SortNodes(node.children, node.count);
      ghost var sorted := node.children[..node.count];
      SortedTexts(kids, sorted, labels);
      SortedHolds(at, p, kids, sorted, labels);
      assert forall i :: 0 <= i < node.count ==> node.children[i] == sorted[i];
    } else {
      TinySort(labels);
    }
  }

  lemma TinySort(labels: seq<Label>)
    requires |labels| <= 1
    ensures SortLabels(labels) == labels
  {
  }

  lemma SortedHolds(at: Index, p: Path, kids: seq<Node?>, sorted: seq<Node?>, labels: seq<Label>)
    requires Texts(kids, labels) && Texts(sorted, SortLabels(labels))
    requires forall i :: 0 <= i < |kids| ==> p + [labels[i]] in at && kids[i] == at[p + [labels[i]]]
    requires forall i :: 0 <= i < |sorted| ==> sorted[i] in kids
    ensures forall i :: 0 <= i < |sorted| ==> p + [SortLabels(labels)[i]] in at && sorted[i] == at[p + [SortLabels(labels)[i]]]
  {
    forall i | 0 <= i < |sorted|
      ensures p + [SortLabels(labels)[i]] in at && sorted[i] == at[p + [SortLabels(labels)[i]]]
    {
      var j :| 0 <= j < |kids| && kids[j] == sorted[i];
      assert labels[j] == SortLabels(labels)[i];
    }
  }

  // The child with the i-th label of a node that has been sorted.
  method SortedChild(node: Node, i: nat, ghost at: Index, ghost f: Forest, ghost g: Forest, ghost p: Path) returns (child: Node)
    requires Represents(at, g) && Shape(f) && PartSorted(f, g) && p in at && node == at[p]
    requires g[p] == SortedCell(f[p]) && i < |g[p].kids|
    ensures p + [g[p].kids[i]] in at && child == at[p + [g[p].kids[i]]]
    ensures p + [g[p].kids[i]] in g && Represents(at, g)
  {
    assert Holds(at, p, g[p]);
    child := node.children[i];
  }

  method SortChildrenRecursive(node: Node, ghost at: Index, ghost f: Forest, ghost p: Path, ghost depth: nat)
    requires Represents(at, f) && Shape(f) && p in f && p in at && node == at[p]
    requires forall q :: q in f ==> |q| <= depth
    modifies NodeSet(at)`sorted, Arrays(at)
    ensures Represents(at, SortForest(f, p))
    decreases depth - |p|
  {
    hide Represents, Shape, PartSorted, SortTo, SortForest;
    SortNode(node, at, f, p);
    SortToStart(f, p);
    SortToShape(f, p, 0);
    var i := 0;
    while i < node.count
      invariant 0 <= i <= |SortLabels(f[p].kids)|
      invariant Represents(at, SortTo(f, p, i))
    {
      ghost var g := SortTo(f, p, i);
      SortToShape(f, p, i);
      var child := SortedChild(node, i, at, f, g, p);
      SortChildrenRecursive(child, at, g, p + [g[p].kids[i]], depth);
      SortToNext(f, p, i);
      i := i + 1;
    }
    SortToAll(f, p);
  }

  // ------------------------------------------------------------------
  // radix_lookup
  // ------------------------------------------------------------------

  // What the walk knows after i labels: the three flags, and the node whose
  // entry wins so far.
  ghost predicate Tally(t: Table, ls: Path, i: nat, at: Index, allowFound: bool, blockFound: bool, reviewFound: bool, matched: Node?)
    requires i <= |ls|
  {
    var w := WinnerUpTo(t, ls, i);
    && allowFound == (Deepest(t, ls, i, Allowed) > 0)
    && (!allowFound ==> blockFound == (Deepest(t, ls, i, Blocked) > 0))
    && (!allowFound && !blockFound ==> reviewFound == (Deepest(t, ls, i, Review) > 0))
    && ((allowFound || blockFound || reviewFound) <==> w > 0)
    && (matched == null <==> w == 0)
    && (w > 0 ==> ls[..w] in at && matched == at[ls[..w]])
  }

  method Tallied(node: Node, allow: bool, block: bool, review: bool, last: Node?,
                 ghost t: Table, ghost ls: Path, ghost i: nat, ghost at: Index)
    returns (allowFound: bool, blockFound: bool, reviewFound: bool, matched: Node?)
    requires 0 < i <= |ls| && ls[..i] in at && node == at[ls[..i]]
    requires node.entry == if ls[..i] in t then Some(t[ls[..i]]) else None
    requires Tally(t, ls, i - 1, at, allow, block, review, last)
    ensures Tally(t, ls, i, at, allowFound, blockFound, reviewFound, matched)
  {
    allowFound, blockFound, reviewFound, matched := allow, block, review, last;
    match node.entry {
      case None =>
      case Some(e) =>
        match e.status {
          case Allowed =>
            allowFound, matched := true, node;
          case Blocked =>
            if !allowFound {
              blockFound, matched := true, node;
            }
          case Review =>
            if !allowFound && !blockFound {
              reviewFound, matched := true, node;
            }
        }
    }
  }

  // The walk of radix_lookup from the root along ls.
  method WalkLookup(root: Node, ls: Path, ghost at: Index, ghost f: Forest) returns (matched: Node?)
    requires Represents(at, f) && Shape(f) && [] in at && at[[]] == root
    ensures var w := Winner(Entries(f), ls);
      && (matched == null <==> w == 0)
      && (w > 0 ==> ls[..w] in at && matched == at[ls[..w]])
  {
    ghost var t := Entries(f);
    var allowFound, blockFound, reviewFound := false, false, false;
    matched := null;
    assert ls[..0] == [];
    var current := root;
    var i := 0;
    while i < |ls|
      invariant 0 <= i <= |ls|
      invariant ls[..i] in at && current == at[ls[..i]]
      invariant Tally(t, ls, i, at, allowFound, blockFound, reviewFound, matched)
    {
      assert ls[..i] + [ls[i]] == ls[..i + 1];
      var child := FindChild(current, ls[i], at, f, ls[..i]);
      if child == null {
        NoneBelow(f, ls, i);
        WinnerStops(t, ls, i);
        return;
      }
      i := i + 1;
      current := child;
      assert Holds(at, ls[..i], f[ls[..i]]);
      allowFound, blockFound, reviewFound, matched :=
        Tallied(current, allowFound, blockFound, reviewFound, matched, t, ls, i, at);
    }
  }

  // The winner's counters are bumped on the live node.
  method TouchNode(node: Node, seen: nat, ghost at: Index, ghost f: Forest, ghost p: Path) returns (r: Option<Entry>)
    requires Represents(at, f) && p in at && node == at[p] && f[p].entry.Some?
    modifies node`entry
    ensures r == Some(Touched(f[p].entry.value, seen))
    ensures Represents(at, SetEntry(f, p, r))
  {
    assert Holds(at, p, f[p]);
    forall q | q in at && q != p ensures Apart(at[q], node) {
      assert Apart(at[q], at[p]);
    }
    var e := node.entry.value;
    r := Some(e.(hitCount := (e.hitCount + 1) % WORD, lastSeen := seen));
    node.entry := r;
    CellWritten(at, f, p, f[p].(entry := r));
  }

  // ------------------------------------------------------------------
  // The tree object: a radix_tree_builder_t, or a published radix_tree_t whose
  // lock makes each method atomic.
  // ------------------------------------------------------------------

  class Tree {
    var root: Node?
    ghost var at: Index
    ghost var tree: Forest
    ghost var own: set<object>

    ghost predicate Valid()
      reads this, own
    {
      && this !in own
      && (forall p :: p in at ==> at[p] in own && at[p].children in own)
      && (root == null ==> at == map[] && tree == map[])
      && (root != null ==> Shape(tree) && Represents(at, tree) && at[[]] == root)
    }

    // What the tree means.
    ghost function Table(): Table
      reads this
    {
      Entries(tree)
    }

    // radix_builder_init with its allocation succeeding.
    constructor ()
      ensures Valid() && fresh(own) && root != null
      ensures Table() == map[]
    {
      var n := new Node([]);
      root := n;
      at := map[[] := n];
      tree := map[[] := Cell([], true, None)];
      own := {n, n.children};
    }

    // radix_insert.
    method Insert(domain: Name, e: Entry) returns (rc: int, ghost fault: Fault)
      requires Valid()
      modifies this`at, this`tree, this`own, own
      ensures Valid() && fresh(own - old(own))
      ensures rc == -2 <==> root == null || TreePath(domain) == []
      ensures rc == -2 ==> tree == old(tree) && fault.NoFault?
      ensures rc != -2 ==> Inserted(old(tree), tree, TreePath(domain), e, rc, fault)
    {
      fault := NoFault;
      if root == null {
        return -2, fault;
      }
      var count, labels := SplitDomainRtl(domain);
      if count <= 0 {
        return -2, fault;
      }
      rc, fault := InsertLabels(labels, e);
    }

    // radix_tree_insert_live.
    method InsertLive(domain: Name, e: Entry) returns (rc: int, ghost fault: Fault)
      requires Valid()
      modifies this`at, this`tree, this`own, own
      ensures Valid() && fresh(own - old(own))
      ensures rc == -2 <==> TreePath(domain) == []
      ensures rc == -3 <==> root == null && TreePath(domain) != []
      ensures rc == -2 || rc == -3 ==> tree == old(tree) && fault.NoFault?
      ensures rc != -2 && rc != -3 ==> Inserted(old(tree), tree, TreePath(domain), e, rc, fault)
    {
      fault := NoFault;
      var count, labels := SplitDomainRtl(domain);
      if count <= 0 {
        return -2, fault;
      }
      if root == null {
        return -3, fault;
      }
      rc, fault := InsertLabels(labels, e);
    }

    method InsertLabels(labels: Path, e: Entry) returns (rc: int, ghost fault: Fault)
      requires Valid() && root != null && labels != []
      modifies this`at, this`tree, this`own, own
      ensures Valid() && fresh(own - old(own))
      ensures Inserted(old(tree), tree, labels, e, rc, fault)
    {
      ghost var g, after, own', f := at, tree, own, tree;
      rc, fault, g, after, own' := InsertPath(root, labels, e, at, f, own);
      InsertShape(f, after, labels, e, rc, fault);
      Adopt(g, after, own');
    }

    ghost method Adopt(g: Index, f: Forest, own': set<object>)
      requires root != null && this !in own' && (forall p :: p in g ==> g[p] in own' && g[p].children in own')
      requires Shape(f) && Represents(g, f) && [] in g && g[[]] == root
      modifies this`at, this`tree, this`own
      ensures Valid() && at == g && tree == f && own == own'
    {
      at, tree, own := g, f, own';
      StillRepresents(g, f);
    }

    // radix_lookup at time `seen`.
    method Lookup(domain: Name, seen: nat) returns (r: Option<Entry>)
      requires Valid()
      modifies this`at, this`tree, this`own, own
      ensures Valid() && at == old(at) && own == old(own) && root == old(root)
      ensures r == LookupResult(old(Table()), TreePath(domain), seen)
      ensures Table() == Touch(old(Table()), TreePath(domain), seen)
    {
      hide Capped, PathOf;
      var count, labels := SplitDomainRtl(domain);
      if count <= 0 || root == null {
        assert Entries(map[]) == map[];
        return None;
      }
      ghost var f, w := tree, Winner(Table(), labels);
      var matched := WalkLookup(root, labels, at, f);
      if matched == null {
        return None;
      }
      r := CountHit(matched, seen, labels[..w]);
    }

    method CountHit(node: Node, seen: nat, ghost p: Path) returns (r: Option<Entry>)
      requires Valid() && root != null && p in at && node == at[p] && tree[p].entry.Some?
      modifies this`at, this`tree, this`own, node`entry
      ensures Valid() && at == old(at) && own == old(own)
      ensures r == Some(Touched(old(tree)[p].entry.value, seen))
      ensures tree == SetEntry(old(tree), p, r)
      ensures Table() == old(Table())[p := r.value]
    {
      ghost var f := tree;
      r := TouchNode(node, seen, at, f, p);
      SetEntryShape(f, p, r);
      Adopt(at, SetEntry(f, p, r), own);
    }

    // sort_children_recursive on the root, where publishing and swapping call it.
    method SortAll()
      requires Valid()
      modifies this`at, this`tree, this`own, own
      ensures Valid() && at == old(at) && own == old(own)
      ensures tree == if root == null then old(tree) else SortForest(old(tree), [])
    {
      if root != null {
        ghost var f := tree;
        ghost var depth := Bound(f.Keys);
        SortChildrenRecursive(root, at, f, [], depth);
        SortForestShape(f, []);
        Adopt(at, SortForest(f, []), own);
      }
    }

    // radix_publish and radix_tree_swap: the builder's tree is sorted, becomes
    // this tree, and the builder is left empty.  What this tree held is freed.
    method TakeOver(builder: Tree)
      requires Valid() && builder.Valid() && builder != this
      requires this !in builder.own
      modifies this`root, this`at, this`tree, this`own, builder`root, builder`at, builder`tree, builder`own, builder.own
      ensures Valid() && builder.Valid()
      ensures Table() == old(builder.Table())
      ensures root == old(builder.root) && own == old(builder.own)
      ensures forall p :: p in tree ==> tree[p].sorted && Ascending(tree[p].kids)
      ensures builder.root == null && builder.own == {}
    {
      builder.SortAll();
      TableOfSorted(old(builder.tree), builder.tree, builder.root != null);
      Receive(builder);
      builder.Vacate();
    }

    method Receive(builder: Tree)
      requires builder.Valid() && this !in builder.own && this != builder
      modifies this`root, this`at, this`tree, this`own
      ensures Valid()
      ensures root == builder.root && tree == builder.tree && own == builder.own
    {
      root := builder.root;
      if root == null {
        at, tree, own := map[], map[], builder.own;
      } else {
        StillRepresents(builder.at, builder.tree);
        Adopt(builder.at, builder.tree, builder.own);
      }
    }

    method Vacate()
      modifies this`root, this`at, this`tree, this`own
      ensures Valid() && root == null && tree == map[] && own == {}
    {
      root, at, tree, own := null, map[], map[], {};
    }
  }

  lemma TableOfSorted(f: Forest, g: Forest, rooted: bool)
    requires g == if rooted then SortForest(f, []) else f
    requires if rooted then Shape(f) else f == map[]
    ensures Entries(g) == Entries(f)
    ensures forall p :: p in g ==> g[p].sorted && Ascending(g[p].kids)
  {
    if rooted { SortForestShape(f, []); }
  }

  // A bound on the length of finitely many paths.
  ghost function Bound(paths: set<Path>): (d: nat)
    ensures forall p :: p in paths ==> |p| <= d
    decreases paths
  {
    if paths == {} then 0
    else
      var p :| p in paths;
      MaxNat(|p|, Bound(paths - {p}))
  }
}
