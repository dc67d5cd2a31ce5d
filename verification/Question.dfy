// parse_query: the question of a DNS query (RFC 1035 sections 3.1 and 4.1.2).
module Question {
  import opened Prelude
  import opened Names

  type Packet = seq<Byte>

  const HEADER: nat := 12

  // Size of the domain buffer a query context carries.
  const DOMAIN_BUF: nat := 256

  predicate HostByte(c: Byte) {
    97 <= c <= 122 || 48 <= c <= 57 || c == HYPHEN
  }

  predicate HostLabel(l: Label) {
    l != [] && forall i :: 0 <= i < |l| ==> HostByte(l[i])
  }

  predicate HostLabels(ls: seq<Label>) {
    forall i :: 0 <= i < |ls| ==> HostLabel(ls[i])
  }

  // The packet spells ls from the end of its header up to p: each label a length
  // byte followed by that many bytes, read in lower case.
  ghost predicate Spells(b: Packet, ls: seq<Label>, p: nat)
    decreases |ls|
  {
    if ls == [] then p == HEADER
    else
      var l := ls[|ls| - 1];
      var q := p - 1 - |l|;
      && HEADER <= q && p <= |b|
      && 0 < |l| == b[q]
      && LowerAll(b[q + 1..p]) == l
      && Spells(b, ls[..|ls| - 1], q)
  }

  // The name fits the domain buffer, as parse_query measures it.
  predicate Fits(ls: seq<Label>) {
    |Join(ls)| <= DOMAIN_BUF - 1 && (|ls| == 1 ==> |ls[0]| <= DOMAIN_BUF - 2)
  }

  function U16(b: Packet, p: nat): nat
    requires p + 2 <= |b|
  {
    (b[p] as int) * 256 + (b[p + 1] as int)
  }

  // What it means for a packet to ask for ls with type qtype.
  ghost predicate Asks(b: Packet, ls: seq<Label>, qtype: nat, e: nat) {
    && HEADER <= e && e + 3 <= |b|
    && Spells(b, ls, e) && b[e] == 0
    && HostLabels(ls)
    && Fits(ls)
    && qtype == U16(b, e + 1)
  }

  // ------------------------------------------------------------------
  // Dotted names and labels
  // ------------------------------------------------------------------

  lemma {:induction false} HostIsLower(s: Name)
    requires forall i :: 0 <= i < |s| ==> HostByte(s[i]) || s[i] == DOT
    ensures LowerAll(s) == s
  {
  }

  lemma {:induction false} JoinBytes(ls: seq<Label>)
    requires HostLabels(ls)
    ensures forall i :: 0 <= i < |Join(ls)| ==> HostByte(Join(ls)[i]) || Join(ls)[i] == DOT
    ensures ls != [] ==> Join(ls) != []
  {
    if |ls| > 1 { JoinBytes(ls[..|ls| - 1]); }
  }

  lemma {:induction false} NonEmptyAll(ls: seq<Label>)
    requires forall i :: 0 <= i < |ls| ==> ls[i] != []
    ensures NonEmpty(ls) == ls
  {
    if ls != [] {
      NonEmptyAll(ls[1..]);
      assert ls == [ls[0]] + ls[1..];
    }
  }

  // The tree walks exactly the labels of a dotted host name, last one first; so
  // two host names with the same path are the same name.
  lemma PathOfHostName(ls: seq<Label>)
    requires HostLabels(ls) && ls != [] && |Join(ls)| <= 256
    ensures TreePath(Join(ls)) == Reverse(ls)
  {
    JoinBytes(ls);
    HostIsLower(Join(ls));
    assert forall i :: 0 <= i < |ls| ==> HostLabel(ls[i]) && DOT !in ls[i];
    SplitOfJoin(ls);
    NonEmptyAll(ls);
    CapNeverBites(Join(ls));
  }

  lemma {:induction false} SpanOfHost(ls: seq<Label>)
    requires ls != []
    ensures Span(Reverse(ls)) == |Join(ls)| + 1
  {
    var front, last := ls[..|ls| - 1], ls[|ls| - 1];
    assert ls == front + [last];
    ReverseAppend(front, last);
    assert ([last] + Reverse(front))[1..] == Reverse(front);
    if front == [] {
      assert Reverse(front) == [];
    } else {
      SpanOfHost(front);
    }
  }

  // A name at or below a host name in the tree is no shorter.
  lemma BelowIsLonger(ls: seq<Label>, k: Name)
    requires HostLabels(ls) && ls != [] && |Join(ls)| <= 256 && TreePath(Join(ls)) <= TreePath(k)
    ensures |Join(ls)| <= |k|
  {
    PathOfHostName(ls);
    SpanOfHost(ls);
    SpanPrefix(TreePath(Join(ls)), TreePath(k));
    TreePathFits(k);
  }

  // ------------------------------------------------------------------
  // The packet determines what it asks for
  // ------------------------------------------------------------------

  lemma {:induction false} SpellsBounds(b: Packet, ls: seq<Label>, p: nat)
    requires Spells(b, ls, p)
    ensures HEADER <= p && (ls != [] ==> p <= |b|)
    decreases |ls|
  {
    if ls != [] { SpellsBounds(b, ls[..|ls| - 1], p - 1 - |ls[|ls| - 1]|); }
  }

  // Where the first k labels of a spelled list end.
  lemma {:induction false} SpellsPrefix(b: Packet, ls: seq<Label>, p: nat, k: nat) returns (q: nat)
    requires Spells(b, ls, p) && k <= |ls|
    ensures q <= p && Spells(b, ls[..k], q)
    ensures k < |ls| ==> q + 1 + |ls[k]| <= p && p <= |b| && 0 < |ls[k]| == b[q] && LowerAll(b[q + 1..q + 1 + |ls[k]|]) == ls[k]
    decreases |ls|
  {
    if k == |ls| {
      assert ls[..k] == ls;
      q := p;
    } else {
      var front := ls[..|ls| - 1];
      var r := p - 1 - |ls[|ls| - 1]|;
      if k == |ls| - 1 {
        q := r;
      } else {
        q := SpellsPrefix(b, front, r, k);
        assert front[..k] == ls[..k];
      }
    }
  }

  // Two lists spelled by the same packet agree as far as both go.
  lemma {:induction false} SpellsAgree(b: Packet, ls: seq<Label>, p: nat, ms: seq<Label>, q: nat, k: nat)
    requires Spells(b, ls, p) && Spells(b, ms, q) && k <= |ls| && k <= |ms|
    ensures ls[..k] == ms[..k]
    decreases k
  {
    if k > 0 {
      SpellsAgree(b, ls, p, ms, q, k - 1);
      var r := SpellsPrefix(b, ls, p, k - 1);
      var t := SpellsPrefix(b, ms, q, k - 1);
      SpellsEnd(b, ls[..k - 1], r, t);
      TakeMore(ls, ms, k);
    }
  }

  lemma TakeMore(ls: seq<Label>, ms: seq<Label>, k: nat)
    requires 0 < k <= |ls| && k <= |ms|
    requires ls[..k - 1] == ms[..k - 1] && ls[k - 1] == ms[k - 1]
    ensures ls[..k] == ms[..k]
  {
    forall i | 0 <= i < k ensures ls[i] == ms[i] {
      if i < k - 1 { assert ls[..k - 1][i] == ms[..k - 1][i]; }
    }
  }

  lemma {:induction false} SpellsEnd(b: Packet, ls: seq<Label>, p: nat, q: nat)
    requires Spells(b, ls, p) && Spells(b, ls, q)
    ensures p == q
    decreases |ls|
  {
    if ls != [] {
      var n := |ls[|ls| - 1]|;
      SpellsEnd(b, ls[..|ls| - 1], p - 1 - n, q - 1 - n);
    }
  }

  // A list spelled up to a zero byte is not a proper prefix of another.
  lemma NotShorter(b: Packet, ls: seq<Label>, p: nat, ms: seq<Label>, e: nat)
    requires Spells(b, ls, p) && Spells(b, ms, e) && e < |b| && b[e] == 0
    ensures |ls| <= |ms| && ms[..|ls|] == ls
  {
    var k := MinNat(|ls|, |ms|);
    SpellsAgree(b, ls, p, ms, e, k);
    if |ms| < |ls| {
      var q := SpellsPrefix(b, ls, p, |ms|);
      assert ms[..|ms|] == ms;
      SpellsEnd(b, ms, q, e);
    } else {
      assert ls[..|ls|] == ls;
    }
  }

  // Whatever the packet asks for begins with what has been read of it, and if
  // the name does not end at p, goes on with the label at p.
  lemma AskedGoesOn(b: Packet, ls: seq<Label>, p: nat, ms: seq<Label>, e: nat)
    requires Spells(b, ls, p) && Spells(b, ms, e) && e < |b| && b[e] == 0
    ensures p < |b| && |ls| <= |ms| && ms[..|ls|] == ls
    ensures b[p] == 0 ==> ms == ls && e == p
    ensures b[p] != 0 ==>
      && |ls| < |ms|
      && p + 1 + b[p] < |b|
      && ms[|ls|] == LowerAll(b[p + 1..p + 1 + b[p]])
  {
    NotShorter(b, ls, p, ms, e);
    if |ls| == |ms| {
      assert ms[..|ls|] == ms;
      SpellsEnd(b, ls, e, p);
    } else {
      GoesOn(b, ls, p, ms, e);
    }
  }

  lemma GoesOn(b: Packet, ls: seq<Label>, p: nat, ms: seq<Label>, e: nat)
    requires Spells(b, ls, p) && Spells(b, ms, e) && e < |b| && |ls| < |ms| && ms[..|ls|] == ls
    ensures p < |b| && 0 < b[p] && p + 1 + b[p] < |b|
    ensures ms[|ls|] == LowerAll(b[p + 1..p + 1 + b[p]])
  {
    var q := SpellsPrefix(b, ms, e, |ls|);
    SpellsEnd(b, ls, q, p);
  }

  lemma {:induction false} JoinGrows(ls: seq<Label>, k: nat)
    requires k <= |ls|
    ensures |Join(ls[..k])| <= |Join(ls)|
    ensures 0 < k < |ls| ==> |Join(ls[..k])| + 1 <= |Join(ls)|
    decreases |ls|
  {
    if k == |ls| {
      assert ls[..k] == ls;
    } else {
      JoinGrows(ls[..|ls| - 1], k);
      assert ls[..|ls| - 1][..k] == ls[..k];
    }
  }

  lemma JoinSnoc(ls: seq<Label>, l: Label)
    ensures Join(ls + [l]) == if ls == [] then l else Join(ls) + [DOT] + l
  {
    assert (ls + [l])[..|ls|] == ls;
  }

  ghost predicate AsksNothing(b: Packet) {
    forall ms: seq<Label>, qtype: nat, e: nat :: !Asks(b, ms, qtype, e)
  }

  // The reasons for which parse_query gives up at p, having read ls.
  ghost predicate Stuck(b: Packet, ls: seq<Label>, p: nat) {
    || p >= |b|
    || (b[p] == 0 && p + 3 > |b|)
    || (b[p] != 0 && (
          || b[p] >= |b| - (p + 1)
          || b[p] >= DOMAIN_BUF - 1 - |Join(ls)|
          || !HostLabel(LowerAll(b[p + 1..p + 1 + b[p]]))))
  }

  lemma StuckAsksNothing(b: Packet, ls: seq<Label>, p: nat)
    requires Spells(b, ls, p) && Stuck(b, ls, p)
    requires HostLabels(ls)
    ensures AsksNothing(b)
  {
    forall ms: seq<Label>, qtype: nat, e: nat ensures !Asks(b, ms, qtype, e) {
      if Spells(b, ms, e) && e < |b| && b[e] == 0 && HostLabels(ms) && e + 3 <= |b| {
        AskedGoesOn(b, ls, p, ms, e);
        if b[p] != 0 { TooLong(ls, ms, b[p]); }
      }
    }
  }

  // A next label that does not fit the room left makes the whole name not fit.
  lemma TooLong(ls: seq<Label>, ms: seq<Label>, n: nat)
    requires |ls| < |ms| && ms[..|ls|] == ls && |ms[|ls|]| == n && HostLabels(ms)
    ensures n >= DOMAIN_BUF - 1 - |Join(ls)| ==> !Fits(ms)
  {
    var more := ms[..|ls| + 1];
    assert more == ls + [ms[|ls|]];
    JoinSnoc(ls, ms[|ls|]);
    JoinGrows(ms, |ls| + 1);
    if |ls| + 1 == |ms| { assert more == ms; }
    JoinBytes(ls);
  }

  // The label at p has been accepted: one more label is spelled.
  lemma SpellsSnoc(b: Packet, ls: seq<Label>, p: nat, n: nat)
    requires Spells(b, ls, p) && 0 < n && p + 1 + n <= |b| && b[p] == n
    ensures Spells(b, ls + [LowerAll(b[p + 1..p + 1 + n])], p + 1 + n)
  {
    var l := LowerAll(b[p + 1..p + 1 + n]);
    SpellsBounds(b, ls, p);
    assert (ls + [l])[..|ls|] == ls;
  }

  // One label into the buffer, byte by byte in lower case, unless a byte is not
  // a host name byte.
  method CopyLabel(packet: Packet, p: nat, len: nat, out: array<Byte>, dst: nat) returns (ok: bool)
    requires 0 < len && p + len <= |packet| && dst + len <= out.Length
    modifies out
    ensures ok <==> HostLabel(LowerAll(packet[p..p + len]))
    ensures ok ==> out[dst..dst + len] == LowerAll(packet[p..p + len])
    ensures out[..dst] == old(out[..dst])
  {
    ghost var l := LowerAll(packet[p..p + len]);
    for i := 0 to len
      invariant forall j :: 0 <= j < i ==> HostByte(l[j]) && out[dst + j] == l[j]
      invariant out[..dst] == old(out[..dst])
    {
      var lowered := Lower(packet[p + i]);
      assert lowered == l[i];
      if !HostByte(lowered) {
        return false;
      }
      out[dst + i] := lowered;
    }
    return true;
  }

  // A dot, unless this is the first label, and the label.
  method AppendLabel(packet: Packet, p: nat, len: nat, out: array<Byte>, n: nat) returns (ok: bool, n': nat)
    requires 0 < len && p + len <= |packet| && n + 1 + len <= out.Length
    modifies out
    ensures ok <==> HostLabel(LowerAll(packet[p..p + len]))
    ensures ok ==> n' == (if n == 0 then len else n + 1 + len)
    ensures ok ==> out[..n'] == if n == 0 then LowerAll(packet[p..p + len]) else old(out[..n]) + [DOT] + LowerAll(packet[p..p + len])
  {
    var dst := n;
    if n != 0 {
      out[n] := DOT;
      dst := n + 1;
    }
    ghost var head := out[..dst];
    assert head == if n == 0 then [] else old(out[..n]) + [DOT];
    ok := CopyLabel(packet, p, len, out, dst);
    n' := dst + len;
    assert out[..n'] == out[..dst] + out[dst..n'];
  }

  // What has been read up to p: ls, with its dotted form in the buffer.
  ghost predicate ReadTo(packet: Packet, ls: seq<Label>, p: nat, name: Name) {
    && p <= |packet|
    && Spells(packet, ls, p) && HostLabels(ls) && Fits(ls)
    && name == Join(ls)
  }

  lemma ReadMore(packet: Packet, ls: seq<Label>, p: nat, name: Name, len: nat)
    requires ReadTo(packet, ls, p, name) && p < |packet| && len == packet[p] != 0
    requires len < |packet| - (p + 1) && len < DOMAIN_BUF - 1 - |name|
    requires HostLabel(LowerAll(packet[p + 1..p + 1 + len]))
    ensures var l := LowerAll(packet[p + 1..p + 1 + len]);
      ReadTo(packet, ls + [l], p + 1 + len, if name == [] then l else name + [DOT] + l)
  {
    var l := LowerAll(packet[p + 1..p + 1 + len]);
    SpellsSnoc(packet, ls, p, len);
    JoinSnoc(ls, l);
    JoinBytes(ls);
  }

  // One round of the outer loop.
  method ReadLabel(packet: Packet, out: array<Byte>, p: nat, n: nat, ghost ls: seq<Label>) returns (ok: bool, p': nat, n': nat, ghost ls': seq<Label>)
    requires out.Length == DOMAIN_BUF && n < DOMAIN_BUF
    requires p < |packet| && packet[p] != 0
    requires ReadTo(packet, ls, p, out[..n])
    modifies out
    ensures ok ==> p < p' && n' < DOMAIN_BUF && ReadTo(packet, ls', p', out[..n'])
    ensures !ok ==> AsksNothing(packet)
  {
    hide Spells, Join, Fits;
    ok, p', n', ls' := false, p, n, ls;
    var len := packet[p];
    if len >= |packet| - (p + 1) || len >= DOMAIN_BUF - 1 - n {
      StuckAsksNothing(packet, ls, p);
      return;
    }
    ghost var name, l := out[..n], LowerAll(packet[p + 1..p + 1 + len]);
    ok, n' := AppendLabel(packet, p + 1, len, out, n);
    if !ok {
      StuckAsksNothing(packet, ls, p);
      return;
    }
    ReadMore(packet, ls, p, name, len);
    p', ls' := p + 1 + len, ls + [l];
  }

  // Accepts exactly the packets that ask for something, and then leaves the
  // dotted lower-case name, zero-terminated, in the buffer.
  method ParseQuery(packet: Packet, out: array<Byte>) returns (ok: bool, n: nat, qtype: nat, ghost ls: seq<Label>, ghost e: nat)
    requires out.Length == DOMAIN_BUF
    modifies out
    ensures ok ==> Asks(packet, ls, qtype, e)
    ensures ok ==> n < DOMAIN_BUF && out[..n] == Join(ls) && out[n] == 0 && NoCapitals(out[..n])
    ensures !ok ==> AsksNothing(packet)
  {
    n, qtype, ls, e, ok := 0, 0, [], HEADER, false;
    if |packet| < HEADER {
      return;
    }
    var p := HEADER;
    while p < |packet| && packet[p] != 0
      invariant n < DOMAIN_BUF && ReadTo(packet, ls, p, out[..n])
      decreases |packet| - p
    {
      var valid;
      valid, p, n, ls := ReadLabel(packet, out, p, n, ls);
      if !valid {
        return;
      }
    }
    ghost var name := out[..n];
    out[n] := 0;
    assert out[..n] == name;
    e := p;
    SpellsBounds(packet, ls, p);
    if p + 3 > |packet| {
      StuckAsksNothing(packet, ls, p);
      return;
    }
    qtype := (packet[p + 1] as int) * 256 + (packet[p + 2] as int);
    AskedNoCapitals(packet, ls, qtype, e);
    ok := true;
  }

  // ------------------------------------------------------------------
  // The wire itself
  // ------------------------------------------------------------------

  // The bytes of the labels as they are on the wire, in either case.
  ghost predicate OnWire(b: Packet, ws: seq<Label>, p: nat)
    decreases |ws|
  {
    if ws == [] then p == HEADER
    else
      var w := ws[|ws| - 1];
      var q := p - 1 - |w|;
      && HEADER <= q && p <= |b|
      && 0 < |w| == b[q]
      && b[q + 1..p] == w
      && OnWire(b, ws[..|ws| - 1], q)
  }

  // Letters of either case, digits and the hyphen.
  predicate TextByte(c: Byte) {
    65 <= c <= 90 || 97 <= c <= 122 || 48 <= c <= 57 || c == 45
  }

  predicate HostText(w: Label) {
    forall i :: 0 <= i < |w| ==> TextByte(w[i])
  }

  // The same labels in lower case.
  predicate Lowered(ws: seq<Label>, ls: seq<Label>) {
    |ws| == |ls| && forall i :: 0 <= i < |ws| ==> AllAlike(ws[i], ls[i]) && NoCapitals(ls[i])
  }

  function LowerLabels(ws: seq<Label>): (ls: seq<Label>)
    ensures |ls| == |ws| && forall i :: 0 <= i < |ws| ==> ls[i] == LowerAll(ws[i])
  {
    seq(|ws|, i requires 0 <= i < |ws| => LowerAll(ws[i]))
  }

  lemma LoweredIs(ws: seq<Label>, ls: seq<Label>)
    ensures Lowered(ws, ls) <==> ls == LowerLabels(ws)
  {
    forall i | 0 <= i < |ws| && i < |ls| ensures ls[i] == LowerAll(ws[i]) <==> AllAlike(ws[i], ls[i]) && NoCapitals(ls[i]) {
      LowerAllIs(ws[i], ls[i]);
    }
  }

  lemma {:induction false} SpellsIsOnWire(b: Packet, ws: seq<Label>, p: nat)
    requires OnWire(b, ws, p)
    ensures Spells(b, LowerLabels(ws), p)
    decreases |ws|
  {
    if ws != [] {
      var front, ls := ws[..|ws| - 1], LowerLabels(ws);
      SpellsIsOnWire(b, front, p - 1 - |ws[|ws| - 1]|);
      assert ls[..|ls| - 1] == LowerLabels(front);
    }
  }

  lemma {:induction false} WireOf(b: Packet, ls: seq<Label>, p: nat) returns (ws: seq<Label>)
    requires Spells(b, ls, p)
    ensures OnWire(b, ws, p) && Lowered(ws, ls)
    decreases |ls|
  {
    if ls == [] {
      ws := [];
    } else {
      var front, l := ls[..|ls| - 1], ls[|ls| - 1];
      var q := p - 1 - |l|;
      var w := b[q + 1..p];
      var vs := WireOf(b, front, q);
      ws := vs + [w];
      assert ws[..|ws| - 1] == vs;
      LowerAllIs(w, l);
      forall i | 0 <= i < |ls| ensures AllAlike(ws[i], ls[i]) && NoCapitals(ls[i]) {
        if i < |ls| - 1 { assert ls[i] == front[i]; }
      }
    }
  }

  // Where the name ends says how long it is.
  lemma {:induction false} NameLength(b: Packet, ls: seq<Label>, e: nat)
    requires Spells(b, ls, e)
    ensures e == HEADER + (if ls == [] then 0 else |Join(ls)| + 1)
    decreases |ls|
  {
    if ls != [] { NameLength(b, ls[..|ls| - 1], e - 1 - |ls[|ls| - 1]|); }
  }

  lemma LoweredHost(w: Label)
    requires w != []
    ensures HostLabel(LowerAll(w)) <==> HostText(w)
  {
    var l := LowerAll(w);
    LowerAllIs(w, l);
    forall i | 0 <= i < |w| ensures HostByte(l[i]) <==> TextByte(w[i]) {
      assert Alike(w[i], l[i]);
    }
  }

  lemma {:induction false} OnWireNonEmpty(b: Packet, ws: seq<Label>, p: nat)
    requires OnWire(b, ws, p)
    ensures forall i :: 0 <= i < |ws| ==> ws[i] != []
    decreases |ws|
  {
    if ws != [] { OnWireNonEmpty(b, ws[..|ws| - 1], p - 1 - |ws[|ws| - 1]|); }
  }

  // The only thing a packet with labels ws up to a zero byte at e can ask for.
  lemma AsksIs(b: Packet, ws: seq<Label>, e: nat, ls: seq<Label>, qtype: nat, f: nat)
    requires OnWire(b, ws, e) && e < |b| && b[e] == 0
    ensures Asks(b, ls, qtype, f) <==>
      && ls == LowerLabels(ws) && f == e
      && HostLabels(ls) && Fits(ls) && e + 3 <= |b| && qtype == U16(b, e + 1)
  {
    hide Spells, OnWire;
    SpellsIsOnWire(b, ws, e);
    SpellsBounds(b, LowerLabels(ws), e);
    if Asks(b, ls, qtype, f) { AskedGoesOn(b, LowerLabels(ws), e, ls, f); }
  }

  // What a packet with labels ws up to a zero byte at e asks for: nothing unless
  // they are letters of either case, digits and hyphens, the zero byte comes no
  // later than the buffer allows, and a type follows; and then the labels in lower
  // case with that type.
  lemma AcceptedIff(b: Packet, ws: seq<Label>, e: nat)
    requires OnWire(b, ws, e) && e < |b| && b[e] == 0
    ensures !AsksNothing(b) <==>
      (forall i :: 0 <= i < |ws| ==> HostText(ws[i])) && e <= (if |ws| == 1 then 267 else 268) && e + 3 <= |b|
    ensures forall ls: seq<Label>, qtype: nat, f: nat :: Asks(b, ls, qtype, f) ==>
      Lowered(ws, ls) && f == e && qtype == (b[e + 1] as int) * 256 + (b[e + 2] as int)
  {
    hide Spells, OnWire, Asks;
    var ls := LowerLabels(ws);
    SpellsIsOnWire(b, ws, e);
    OnWireNonEmpty(b, ws, e);
    NameLength(b, ls, e);
    LoweredIs(ws, ls);
    forall i | 0 <= i < |ws| ensures HostLabel(ls[i]) <==> HostText(ws[i]) { LoweredHost(ws[i]); }
    forall ms: seq<Label>, qtype: nat, f: nat
      ensures Asks(b, ms, qtype, f) <==> ms == ls && f == e && HostLabels(ms) && Fits(ms) && e + 3 <= |b| && qtype == U16(b, e + 1)
    {
      AsksIs(b, ws, e, ms, qtype, f);
    }
    assert HostLabels(ls) <==> forall i :: 0 <= i < |ws| ==> HostText(ws[i]);
    assert Fits(ls) <==> e <= (if |ws| == 1 then 267 else 268);
    if HostLabels(ls) && Fits(ls) && e + 3 <= |b| {
      assert Asks(b, ls, U16(b, e + 1), e);
    }
  }

  // Without labels up to a zero byte a packet asks for nothing.
  lemma AskedIsOnWire(b: Packet, ls: seq<Label>, qtype: nat, e: nat) returns (ws: seq<Label>)
    requires Asks(b, ls, qtype, e)
    ensures OnWire(b, ws, e) && Lowered(ws, ls)
  {
    ws := WireOf(b, ls, e);
  }

  lemma LowerLabelsAlike(ws: seq<Label>, xs: seq<Label>)
    requires |ws| == |xs| && forall i :: 0 <= i < |ws| ==> AllAlike(ws[i], xs[i])
    ensures LowerLabels(ws) == LowerLabels(xs)
  {
    forall i | 0 <= i < |ws| ensures LowerAll(ws[i]) == LowerAll(xs[i]) { AlikeIff(ws[i], xs[i]); }
  }

  // Two packets whose names differ in the case of letters only ask for the same.
  lemma CaseDoesNotMatter(b: Packet, c: Packet, ws: seq<Label>, xs: seq<Label>, e: nat, ls: seq<Label>, qtype: nat, f: nat)
    requires OnWire(b, ws, e) && e + 3 <= |b| && b[e] == 0
    requires OnWire(c, xs, e) && e + 3 <= |c| && c[e] == 0 && c[e + 1] == b[e + 1] && c[e + 2] == b[e + 2]
    requires |ws| == |xs| && forall i :: 0 <= i < |ws| ==> AllAlike(ws[i], xs[i])
    ensures Asks(b, ls, qtype, f) <==> Asks(c, ls, qtype, f)
  {
    hide Spells, OnWire, Asks, Fits;
    LowerLabelsAlike(ws, xs);
    AsksIs(b, ws, e, ls, qtype, f);
    AsksIs(c, xs, e, ls, qtype, f);
  }

  lemma {:induction false} JoinNoCapitals(ls: seq<Label>)
    requires forall i :: 0 <= i < |ls| ==> NoCapitals(ls[i])
    ensures NoCapitals(Join(ls))
  {
    if |ls| > 1 { JoinNoCapitals(ls[..|ls| - 1]); }
  }

  lemma AskedNoCapitals(b: Packet, ls: seq<Label>, qtype: nat, e: nat)
    requires Asks(b, ls, qtype, e)
    ensures NoCapitals(Join(ls))
  {
    forall i | 0 <= i < |ls| ensures NoCapitals(ls[i]) {
      assert HostLabel(ls[i]);
    }
    JoinNoCapitals(ls);
  }

  // The bytes on the wire and the walk in the tree name the same labels: for an
  // accepted packet with at least one label, splitting the parsed name gives the
  // packet's labels in lower case, last one first.
  lemma WireLabelsReachTree(packet: Packet, ls: seq<Label>, qtype: nat, e: nat)
    requires Asks(packet, ls, qtype, e) && ls != []
    ensures TreePath(Join(ls)) == Reverse(ls)
    ensures Spells(packet, ls, e)
  {
    PathOfHostName(ls);
  }

  // A packet asks for at most one name.
  lemma AsksOnce(packet: Packet, ls: seq<Label>, qtype: nat, e: nat, ms: seq<Label>, qtype': nat, e': nat)
    requires Asks(packet, ls, qtype, e) && Asks(packet, ms, qtype', e')
    ensures ls == ms && e == e' && qtype == qtype'
  {
    AskedGoesOn(packet, ls, e, ms, e');
  }

  // Host names are told apart by their paths.
  lemma HostPathInjective(ls: seq<Label>, ms: seq<Label>)
    requires HostLabels(ls) && HostLabels(ms) && ls != [] && ms != []
    requires |Join(ls)| <= 256 && |Join(ms)| <= 256
    requires TreePath(Join(ls)) == TreePath(Join(ms))
    ensures ls == ms
  {
    PathOfHostName(ls);
    PathOfHostName(ms);
    ReverseInjective(ls, ms);
  }

  lemma ReverseInjective<T>(s: seq<T>, t: seq<T>)
    requires Reverse(s) == Reverse(t)
    ensures s == t
  {
    assert |s| == |Reverse(s)| == |t|;
    forall i | 0 <= i < |s| ensures s[i] == t[i] {
      assert Reverse(s)[|s| - 1 - i] == s[i];
      assert Reverse(t)[|s| - 1 - i] == t[i];
    }
  }
}
