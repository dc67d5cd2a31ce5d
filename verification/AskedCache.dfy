// The asked cache as it is stored: hash buckets holding linked chains, a claim
// pushing a node onto its chain and a failed check unlinking one.  It keeps the
// map of module AskOnce.
module AskedCache {
  import opened Prelude
  import opened AskOnce

  const BUCKETS: nat := 4096

  class Node {
    const domain: Name
    var state: AskState
    var next: Node?

    constructor (domain: Name, state: AskState, next: Node?)
      ensures this.domain == domain && this.state == state && this.next == next
    {
      this.domain, this.state, this.next := domain, state, next;
    }
  }

  type Chain = seq<Node>

  function NodeAt(chain: Chain, j: nat): Node? {
    if j < |chain| then chain[j] else null
  }

  // Node j is in the right bucket and the first one with its name.
  ghost predicate Settled(chain: Chain, j: nat, b: nat, hash: Name -> nat)
    requires j < |chain|
  {
    hash(chain[j].domain) % BUCKETS == b && forall i :: 0 <= i < j ==> chain[i].domain != chain[j].domain
  }

  // Node j of bucket b's chain: settled, linked to the next one, and in the map
  // with its state.
  ghost predicate NodeOk(chain: Chain, j: nat, b: nat, hash: Name -> nat, m: Asked)
    requires j < |chain|
    reads chain
  {
    var d := chain[j].domain;
    && chain[j].next == NodeAt(chain, j + 1)
    && Settled(chain, j, b, hash)
    && d in m && m[d] == chain[j].state
  }

  ghost predicate InChain(chain: Chain, d: Name) {
    exists j :: 0 <= j < |chain| && chain[j].domain == d
  }

  ghost predicate ChainOk(head: Node?, chain: Chain, b: nat, hash: Name -> nat, m: Asked)
    reads chain
  {
    && head == NodeAt(chain, 0)
    && (forall j {:trigger NodeOk(chain, j, b, hash, m)} :: 0 <= j < |chain| ==> NodeOk(chain, j, b, hash, m))
    && (forall d {:trigger InChain(chain, d)} :: d in m && hash(d) % BUCKETS == b ==> InChain(chain, d))
  }

  // A chain sees only its own bucket's part of the map.
  lemma ChainSeesBucket(head: Node?, chain: Chain, b: nat, hash: Name -> nat, m: Asked, m': Asked)
    requires ChainOk(head, chain, b, hash, m)
    requires forall d :: hash(d) % BUCKETS == b ==> (d in m <==> d in m') && (d in m ==> m[d] == m'[d])
    ensures ChainOk(head, chain, b, hash, m')
  {
    forall j | 0 <= j < |chain| ensures NodeOk(chain, j, b, hash, m') {
      assert NodeOk(chain, j, b, hash, m);
    }
  }

  lemma ChainDistinct(chain: Chain, b: nat, hash: Name -> nat, m: Asked, i: nat, j: nat)
    requires forall j {:trigger NodeOk(chain, j, b, hash, m)} :: 0 <= j < |chain| ==> NodeOk(chain, j, b, hash, m)
    requires i < |chain| && j < |chain| && chain[i].domain == chain[j].domain
    ensures i == j
  {
    assert NodeOk(chain, i, b, hash, m) && NodeOk(chain, j, b, hash, m);
  }

  // Pushing a new node.
  lemma PushOk(node: Node, head: Node?, chain: Chain, b: nat, hash: Name -> nat, m: Asked)
    requires ChainOk(head, chain, b, hash, m)
    requires node.next == head && hash(node.domain) % BUCKETS == b && node.domain !in m && node.state == Pending
    ensures ChainOk(node, [node] + chain, b, hash, m[node.domain := Pending])
  {
    var d, m', chain' := node.domain, m[node.domain := Pending], [node] + chain;
    forall j | 0 <= j < |chain'| ensures NodeOk(chain', j, b, hash, m') {
      if j > 0 { assert NodeOk(chain, j - 1, b, hash, m); }
    }
    forall k | k in m' && hash(k) % BUCKETS == b ensures InChain(chain', k) {
      if k == d {
        assert chain'[0].domain == d;
      } else {
        assert InChain(chain, k);
        var j :| 0 <= j < |chain| && chain[j].domain == k;
        assert chain'[j + 1].domain == k;
      }
    }
  }

  lemma ChainHash(chain: Chain, b: nat, hash: Name -> nat, m: Asked, x: Node)
    requires forall j {:trigger NodeOk(chain, j, b, hash, m)} :: 0 <= j < |chain| ==> NodeOk(chain, j, b, hash, m)
    ensures x in chain ==> hash(x.domain) % BUCKETS == b
  {
    if x in chain {
      var j :| 0 <= j < |chain| && chain[j] == x;
      assert NodeOk(chain, j, b, hash, m);
    }
  }

  // Writing a state through a node of the chain.
  method MarkNode(n: Node, ghost head: Node?, ghost chain: Chain, ghost j: nat, ghost b: nat, ghost hash: Name -> nat, ghost m: Asked)
    requires ChainOk(head, chain, b, hash, m) && j < |chain| && n == chain[j]
    modifies n`state
    ensures ChainOk(head, chain, b, hash, m[n.domain := Done])
  {
    ghost var m' := m[n.domain := Done];
    forall i | 0 <= i < |chain| ensures NodeOk(chain, i, b, hash, m) && (chain[i].domain == n.domain ==> i == j) {
      if chain[i].domain == n.domain { ChainDistinct(chain, b, hash, m, i, j); }
    }
    label before:
    n.state := Done;
    forall i | 0 <= i < |chain| ensures NodeOk(chain, i, b, hash, m') {
      assert old@before(NodeOk(chain, i, b, hash, m));
    }
  }

  // The chain without node j.
  ghost function Without(chain: Chain, j: nat): Chain
    requires j < |chain|
  {
    chain[..j] + chain[j + 1..]
  }

  lemma WithoutAt(chain: Chain, j: nat, i: nat)
    requires j < |chain| && i < |chain| - 1
    ensures |Without(chain, j)| == |chain| - 1
    ensures var k := if i < j then i else i + 1;
      && Without(chain, j)[i] == chain[k]
      && NodeAt(Without(chain, j), i + 1) == NodeAt(chain, if k + 1 == j then j + 1 else k + 1)
  {
  }

  lemma WithoutCovers(head: Node?, chain: Chain, j: nat, b: nat, hash: Name -> nat, m: Asked)
    requires ChainOk(head, chain, b, hash, m) && j < |chain|
    ensures forall d {:trigger InChain(Without(chain, j), d)} :: d in m && d != chain[j].domain && hash(d) % BUCKETS == b ==> InChain(Without(chain, j), d)
  {
    forall d | d in m && d != chain[j].domain && hash(d) % BUCKETS == b ensures InChain(Without(chain, j), d) {
      assert InChain(chain, d);
      var k :| 0 <= k < |chain| && chain[k].domain == d;
      assert Without(chain, j)[if k < j then k else k - 1].domain == d;
    }
  }

  lemma WithoutSettled(chain: Chain, j: nat, b: nat, hash: Name -> nat, m: Asked)
    requires forall j {:trigger NodeOk(chain, j, b, hash, m)} :: 0 <= j < |chain| ==> NodeOk(chain, j, b, hash, m)
    requires j < |chain|
    ensures var rest := Without(chain, j); forall i {:trigger Settled(rest, i, b, hash)} :: 0 <= i < |rest| ==> Settled(rest, i, b, hash)
  {
    var rest := Without(chain, j);
    forall i | 0 <= i < |rest| ensures Settled(rest, i, b, hash) {
      var k := if i < j then i else i + 1;
      assert NodeOk(chain, k, b, hash, m);
      assert rest[i] == chain[k];
      forall h | 0 <= h < i ensures rest[h].domain != rest[i].domain {
        assert rest[h] == chain[if h < j then h else h + 1];
      }
    }
  }

  // No node of the chain has the name.
  lemma NotInChain(head: Node?, chain: Chain, b: nat, hash: Name -> nat, m: Asked, d: Name)
    requires ChainOk(head, chain, b, hash, m) && hash(d) % BUCKETS == b
    requires forall i :: 0 <= i < |chain| ==> chain[i].domain != d
    ensures d !in m
  {
    assert !InChain(chain, d);
  }

  // *link = dead->next where link is the bucket.
  lemma CutHead(head: Node?, chain: Chain, b: nat, hash: Name -> nat, m: Asked)
    requires ChainOk(head, chain, b, hash, m) && chain != []
    ensures ChainOk(chain[0].next, Without(chain, 0), b, hash, m - {chain[0].domain})
  {
    var m', rest := m - {chain[0].domain}, Without(chain, 0);
    WithoutCovers(head, chain, 0, b, hash, m);
    assert NodeOk(chain, 0, b, hash, m);
    forall i | 0 <= i < |rest| ensures NodeOk(rest, i, b, hash, m') {
      assert NodeOk(chain, i + 1, b, hash, m);
    }
  }

  // *link = dead->next where link is the next field of the node before.
  method CutAfter(prev: Node, n: Node, ghost head: Node?, ghost chain: Chain, ghost j: nat, ghost b: nat, ghost hash: Name -> nat, ghost m: Asked)
    requires ChainOk(head, chain, b, hash, m) && 0 < j < |chain| && n == chain[j] && prev == chain[j - 1]
    modifies prev`next
    ensures ChainOk(head, Without(chain, j), b, hash, m - {n.domain})
  {
    ghost var m', rest := m - {n.domain}, Without(chain, j);
    WithoutCovers(head, chain, j, b, hash, m);
    WithoutSettled(chain, j, b, hash, m);
    WithoutAt(chain, j, 0);
    assert NodeOk(chain, j, b, hash, m);
    forall i | 0 <= i < |chain|
      ensures NodeOk(chain, i, b, hash, m) && (chain[i].domain == n.domain ==> i == j) && (chain[i] == prev ==> i == j - 1)
    {
      if chain[i].domain == n.domain { ChainDistinct(chain, b, hash, m, i, j); }
      if chain[i] == prev { ChainDistinct(chain, b, hash, m, i, j - 1); }
    }
    label before:
    prev.next := n.next;
    forall i | 0 <= i < |rest| ensures NodeOk(rest, i, b, hash, m') {
      hide Without, NodeAt, Settled;
      WithoutAt(chain, j, i);
      assert Settled(rest, i, b, hash);
      ghost var k := if i < j then i else i + 1;
      assert old@before(NodeOk(chain, k, b, hash, m));
    }
    assert head == NodeAt(rest, 0);
  }

  class AskedCache {
    const hash: Name -> nat
    const buckets: array<Node?>
    ghost var chains: seq<Chain>
    ghost var asked: Asked
    ghost var own: set<object>

    ghost predicate BucketOk(b: nat)
      requires b < buckets.Length && b < |chains|
      reads this, buckets, chains[b]
    {
      ChainOk(buckets[b], chains[b], b, hash, asked)
    }

    ghost predicate Valid()
      reads this, own
    {
      && this !in own && buckets in own
      && buckets.Length == |chains| == BUCKETS
      && (forall b, j {:trigger chains[b][j]} :: 0 <= b < BUCKETS && 0 <= j < |chains[b]| ==> chains[b][j] in own)
      && (forall b {:trigger BucketOk(b)} :: 0 <= b < BUCKETS ==> BucketOk(b))
    }

    constructor (hash: Name -> nat)
      ensures Valid() && fresh(own) && this.hash == hash && asked == map[]
    {
      this.hash := hash;
      var a := new Node?[BUCKETS](_ => null);
      buckets := a;
      chains := seq(BUCKETS, _ => []);
      asked := map[];
      own := {a};
    }

    // The walk both operations begin with.
    method Search(idx: nat, d: Name) returns (n: Node?, ghost j: nat)
      requires Valid() && idx == hash(d) % BUCKETS
      ensures n != null <==> d in asked
      ensures n != null ==> j < |chains[idx]| && n == chains[idx][j] && n.domain == d
    {
      ghost var chain := chains[idx];
      assert BucketOk(idx);
      n, j := buckets[idx], 0;
      while n != null && n.domain != d
        invariant j <= |chain| && n == NodeAt(chain, j)
        invariant forall i :: 0 <= i < j ==> chain[i].domain != d
        decreases |chain| - j
      {
        assert NodeOk(chain, j, idx, hash, asked);
        n, j := n.next, j + 1;
      }
      if n != null {
        assert NodeOk(chain, j, idx, hash, asked);
      } else {
        NotInChain(buckets[idx], chain, idx, hash, asked, d);
      }
    }

    // asked_cache_try_claim.
    method TryClaim(d: Name, gotNode: bool, gotName: bool) returns (fire: bool)
      requires Valid()
      modifies this`chains, this`asked, this`own, buckets
      ensures Valid() && fresh(own - old(own))
      ensures (asked, fire) == AskOnce.TryClaim(old(asked), d, gotNode && gotName)
      ensures fire <==> d !in old(asked) && gotNode && gotName
      ensures asked == if fire then old(asked)[d := Pending] else old(asked)
    {
      var idx := hash(d) % BUCKETS;
      var n, j := Search(idx, d);
      if n != null {
        return false;
      }
      if !gotNode {
        return false;
      }
      if !gotName {
        return false;
      }
      Push(idx, d);
      return true;
    }

    method Push(idx: nat, d: Name)
      requires Valid() && idx == hash(d) % BUCKETS && d !in asked
      modifies this`chains, this`asked, this`own, buckets
      ensures Valid() && fresh(own - old(own)) && asked == old(asked)[d := Pending]
    {
      ghost var m, m', chain := asked, asked[d := Pending], chains[idx];
      assert BucketOk(idx);
      var node := new Node(d, Pending, buckets[idx]);
      PushOk(node, buckets[idx], chain, idx, hash, m);
      forall b | 0 <= b < BUCKETS && b != idx ensures ChainOk(buckets[b], chains[b], b, hash, m') {
        assert BucketOk(b);
        ChainSeesBucket(buckets[b], chains[b], b, hash, m, m');
      }
      buckets[idx] := node;
      chains, asked, own := chains[idx := [node] + chain], m', own + {node};
    }

    // asked_cache_mark_done.  `link` of the source is the bucket itself while
    // prev is null, and prev's next field after that.
    method MarkDone(d: Name, succeeded: bool)
      requires Valid()
      modifies this`chains, this`asked, own
      ensures Valid() && own == old(own)
      ensures asked == AskOnce.MarkDone(old(asked), d, succeeded)
      ensures d in old(asked) ==> asked == if succeeded then old(asked)[d := Done] else old(asked) - {d}
      ensures d !in old(asked) ==> asked == old(asked)
    {
      var idx := hash(d) % BUCKETS;
      ghost var chain, j := chains[idx], 0;
      assert BucketOk(idx);
      var prev: Node? := null;
      var n := buckets[idx];
      while n != null && n.domain != d
        invariant j <= |chain| && n == NodeAt(chain, j)
        invariant prev == if j == 0 then null else chain[j - 1]
        invariant forall i :: 0 <= i < j ==> chain[i].domain != d
        decreases |chain| - j
      {
        assert NodeOk(chain, j, idx, hash, asked);
        prev, n, j := n, n.next, j + 1;
      }
      if n == null {
        NotInChain(buckets[idx], chain, idx, hash, asked, d);
        return;
      }
      assert NodeOk(chain, j, idx, hash, asked);
      if succeeded {
        SetDone(idx, n, j);
      } else if prev == null {
        UnlinkHead(idx, n);
      } else {
        UnlinkAfter(idx, prev, n, j);
      }
    }

    // No other chain holds a node of bucket idx.
    lemma NodesApart(idx: nat, node: Node)
      requires Valid() && idx < BUCKETS && node in chains[idx]
      ensures forall b {:trigger chains[b]} :: 0 <= b < BUCKETS && b != idx ==> node !in chains[b]
    {
      assert BucketOk(idx);
      ChainHash(chains[idx], idx, hash, asked, node);
      forall b | 0 <= b < BUCKETS && b != idx ensures node !in chains[b] {
        assert BucketOk(b);
        ChainHash(chains[b], b, hash, asked, node);
      }
    }

    // The other buckets under a map that differs in names of bucket idx only.
    lemma OthersOk(idx: nat, m': Asked)
      requires Valid() && idx < BUCKETS
      requires forall d :: hash(d) % BUCKETS != idx ==> (d in asked <==> d in m') && (d in asked ==> asked[d] == m'[d])
      ensures forall b {:trigger chains[b]} :: 0 <= b < BUCKETS && b != idx ==> ChainOk(buckets[b], chains[b], b, hash, m')
    {
      forall b | 0 <= b < BUCKETS && b != idx ensures ChainOk(buckets[b], chains[b], b, hash, m') {
        assert BucketOk(b);
        ChainSeesBucket(buckets[b], chains[b], b, hash, asked, m');
      }
    }

    method SetDone(idx: nat, n: Node, ghost j: nat)
      requires Valid() && idx < BUCKETS && j < |chains[idx]| && n == chains[idx][j] && hash(n.domain) % BUCKETS == idx
      modifies this`asked, n`state
      ensures Valid() && asked == old(asked)[n.domain := Done]
    {
      NodesApart(idx, n);
      assert BucketOk(idx);
      OthersOk(idx, asked[n.domain := Done]);
      MarkNode(n, buckets[idx], chains[idx], j, idx, hash, asked);
      asked := asked[n.domain := Done];
      assert forall b :: 0 <= b < BUCKETS ==> BucketOk(b);
    }

    method UnlinkHead(idx: nat, n: Node)
      requires Valid() && idx < BUCKETS && chains[idx] != [] && n == chains[idx][0] && hash(n.domain) % BUCKETS == idx
      modifies this`chains, this`asked, buckets
      ensures Valid() && asked == old(asked) - {n.domain}
    {
      assert BucketOk(idx);
      OthersOk(idx, asked - {n.domain});
      CutHead(buckets[idx], chains[idx], idx, hash, asked);
      buckets[idx] := n.next;
      chains, asked := chains[idx := Without(chains[idx], 0)], asked - {n.domain};
      assert forall b :: 0 <= b < BUCKETS ==> BucketOk(b);
    }

    method UnlinkAfter(idx: nat, prev: Node, n: Node, ghost j: nat)
      requires Valid() && idx < BUCKETS && 0 < j < |chains[idx]| && n == chains[idx][j] && prev == chains[idx][j - 1]
      requires hash(n.domain) % BUCKETS == idx
      modifies this`chains, this`asked, prev`next
      ensures Valid() && asked == old(asked) - {n.domain}
    {
      assert BucketOk(idx);
      NodesApart(idx, prev);
      OthersOk(idx, asked - {n.domain});
      CutAfter(prev, n, buckets[idx], chains[idx], j, idx, hash, asked);
      chains, asked := chains[idx := Without(chains[idx], j)], asked - {n.domain};
      assert forall b :: 0 <= b < BUCKETS ==> BucketOk(b);
    }
  }
}
