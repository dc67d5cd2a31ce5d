// What the answer side of the codec means in bytes: every response byte by byte,
// and what a reply with any mixture of records is read as.
module WireLaws {
  import opened Prelude
  import opened Names
  import opened Question
  import opened AnswerCache
  import opened AnswerWire

  // ------------------------------------------------------------------
  // Responses
  // ------------------------------------------------------------------

  predicate RecordOk(r: Record) {
    r.rtype < 65536 && r.rclass < 65536 && r.ttl <= U32_MAX && |r.rdata| < 65536
  }

  // A record: a pointer to the name at byte 12, then type, class, TTL and length,
  // most significant byte first, and the data.
  function Encoded(r: Record): (b: Packet)
    requires RecordOk(r)
    ensures |b| == 12 + |r.rdata|
  {
    [0xC0, 12, r.rtype / 256, r.rtype % 256, r.rclass / 256, r.rclass % 256,
     r.ttl / 0x100_0000, r.ttl / 0x1_0000 % 256, r.ttl / 256 % 256, r.ttl % 256,
     |r.rdata| / 256, |r.rdata| % 256] + r.rdata
  }

  // The packet has that record at p.
  ghost predicate RecordAt(b: Packet, p: nat, r: Record) {
    RecordOk(r) && p + 12 + |r.rdata| <= |b| && b[p..p + 12 + |r.rdata|] == Encoded(r)
  }

  // The request itself, as an answer without an error, with n records behind it.
  ghost predicate RepliesTo(r: Packet, request: Packet, n: nat) {
    && HEADER <= |request| <= |r|
    && r[2] == 0x81 && r[3] == 0x80 && (r[6] as int) * 256 + (r[7] as int) == n
    && forall i :: 0 <= i < |request| && i !in {2, 3, 6, 7} ==> r[i] == request[i]
  }

  lemma AnswerIsEncoded(qtype: nat, ttl: nat, rdata: seq<Byte>)
    requires qtype < 65536 && ttl <= U32_MAX && |rdata| < 65536
    ensures Answer(qtype, ttl, |rdata|, rdata) == Encoded(Record(qtype, 1, ttl, rdata))
  {
    TtlParts(ttl);
    assert Put32(ttl) == [ttl / 0x100_0000, ttl / 0x1_0000 % 256, ttl / 256 % 256, ttl % 256];
  }

  lemma TtlParts(ttl: nat)
    requires ttl <= U32_MAX
    ensures ttl / 0x1_0000 / 256 == ttl / 0x100_0000 < 256 && ttl % 0x1_0000 / 256 == ttl / 256 % 256 && ttl % 0x1_0000 % 256 == ttl % 256
  {
    var q, r := ttl / 0x1_0000, ttl % 0x1_0000;
    var c, d := r / 256, r % 256;
    assert ttl == (q * 256 + c) * 256 + d;
    Quotient(ttl, q * 256 + c, d);
    Quotient(q * 256 + c, q, c);
  }

  lemma Quotient(n: nat, q: nat, r: nat)
    requires n == q * 256 + r && r < 256
    ensures n / 256 == q && n % 256 == r
  {
  }

  // Where a row of the given width starts, seen from the end of what is behind it.
  lemma SliceOfConcat(front: Packet, back: Packet, p: nat, q: nat)
    requires p <= q <= |front| + |back|
    ensures q <= |front| ==> (front + back)[p..q] == front[p..q]
    ensures p >= |front| ==> (front + back)[p..q] == back[p - |front|..q - |front|]
  {
  }

  ghost predicate AllWidth(rows: seq<seq<Byte>>, width: nat) {
    forall j :: 0 <= j < |rows| ==> |rows[j]| == width
  }

  lemma LastBytes(qtype: nat, ttl: nat, width: nat, rows: seq<seq<Byte>>, p: nat)
    requires qtype < 65536 && ttl <= U32_MAX && width < 65536 && rows != [] && AllWidth(rows, width)
    requires p == (|rows| - 1) * (12 + width)
    ensures RecordAt(Answers(qtype, ttl, width, rows), p, Record(qtype, 1, ttl, rows[|rows| - 1]))
  {
    hide Answer, Answers, RecordAt;
    var front, last := rows[..|rows| - 1], rows[|rows| - 1];
    AnswersSnoc(qtype, ttl, width, rows);
    AnswersLength(qtype, ttl, width, front);
    LastRecord(qtype, ttl, last);
    RecordMoves(Answers(qtype, ttl, width, front), Answer(qtype, ttl, width, last), 0, Record(qtype, 1, ttl, last));
  }

  lemma {:induction false} AnswersBytes(qtype: nat, ttl: nat, width: nat, rows: seq<seq<Byte>>, i: nat)
    requires qtype < 65536 && ttl <= U32_MAX && width < 65536 && i < |rows| && AllWidth(rows, width)
    ensures RecordAt(Answers(qtype, ttl, width, rows), i * (12 + width), Record(qtype, 1, ttl, rows[i]))
  {
    hide Answer, Answers, RecordAt;
    if i == |rows| - 1 {
      LastBytes(qtype, ttl, width, rows, i * (12 + width));
    } else {
      AnswersBytes(qtype, ttl, width, rows[..|rows| - 1], i);
      AnswersSnoc(qtype, ttl, width, rows);
      RecordStays(Answers(qtype, ttl, width, rows[..|rows| - 1]), Answer(qtype, ttl, width, rows[|rows| - 1]),
                  i * (12 + width), Record(qtype, 1, ttl, rows[i]));
    }
  }

  lemma LastRecord(qtype: nat, ttl: nat, rdata: seq<Byte>)
    requires qtype < 65536 && ttl <= U32_MAX && |rdata| < 65536
    ensures RecordAt(Answer(qtype, ttl, |rdata|, rdata), 0, Record(qtype, 1, ttl, rdata))
  {
    AnswerIsEncoded(qtype, ttl, rdata);
    var z := Answer(qtype, ttl, |rdata|, rdata);
    assert z[0..12 + |rdata|] == z;
  }

  lemma RecordStays(head: Packet, tail: Packet, p: nat, r: Record)
    requires RecordAt(head, p, r)
    ensures RecordAt(head + tail, p, r)
  {
    SliceOfConcat(head, tail, p, p + 12 + |r.rdata|);
  }

  lemma AnswersSnoc(qtype: nat, ttl: nat, width: nat, rows: seq<seq<Byte>>)
    requires qtype < 65536 && ttl <= U32_MAX && width < 65536 && rows != []
    requires forall j :: 0 <= j < |rows| ==> |rows[j]| == width
    ensures Answers(qtype, ttl, width, rows) ==
      Answers(qtype, ttl, width, rows[..|rows| - 1]) + Answer(qtype, ttl, width, rows[|rows| - 1])
  {
  }

  // Every byte of a response built from cached records.
  lemma ResponseBytes(request: Packet, qtype: nat, p: Payload, ttl: nat)
    requires |request| >= HEADER && qtype < 65536 && PayloadOk(p) && ttl <= U32_MAX
    ensures var r := CachedResponse(request, qtype, p, ttl);
      IsAnswers(r, request, qtype, p, ttl)
  {
    hide RecordAt, Head, Answers, Rows;
    var head, tail := Head(request, p.numRecords), Answers(qtype, ttl, p.recordBytes, Rows(p));
    forall i | 0 <= i < p.numRecords
      ensures RecordAt(head + tail, |request| + i * (12 + p.recordBytes), Record(qtype, 1, ttl, p.records[i][..p.recordBytes]))
    {
      AnswersBytes(qtype, ttl, p.recordBytes, Rows(p), i);
      RecordMoves(head, tail, i * (12 + p.recordBytes), Record(qtype, 1, ttl, Rows(p)[i]));
    }
    HeadBytes(request, p.numRecords);
  }

  lemma RecordMoves(head: Packet, tail: Packet, p: nat, r: Record)
    requires RecordAt(tail, p, r)
    ensures RecordAt(head + tail, |head| + p, r)
  {
    SliceOfConcat(head, tail, |head| + p, |head| + p + 12 + |r.rdata|);
  }

  lemma HeadBytes(request: Packet, n: nat)
    requires |request| >= HEADER && n < 65536
    ensures RepliesTo(Head(request, n), request, n)
  {
  }

  // The request, and one record of the query's type for every row stored.
  ghost predicate IsAnswers(r: Packet, request: Packet, qtype: nat, p: Payload, ttl: nat) {
    && PayloadOk(p)
    && |r| == |request| + p.numRecords * (12 + p.recordBytes) && RepliesTo(r, request, p.numRecords)
    && forall i :: 0 <= i < p.numRecords ==>
        RecordAt(r, |request| + i * (12 + p.recordBytes), Record(qtype, 1, ttl, p.records[i][..p.recordBytes]))
  }

  // A blocked query's response: the request, and the address 0.0.0.0 for ttl
  // seconds.
  ghost predicate IsSinkhole(r: Packet, request: Packet, ttl: nat) {
    |r| == |request| + 16 && RepliesTo(r, request, 1) && RecordAt(r, |request|, Record(1, 1, ttl, [0, 0, 0, 0]))
  }

  lemma SinkholeBytes(request: Packet, ttl: nat)
    requires |request| >= HEADER && ttl <= U32_MAX
    ensures IsSinkhole(CachedResponse(request, 1, SINKHOLE, ttl), request, ttl)
  {
    hide RecordAt, RepliesTo, CachedResponse;
    ResponseBytes(request, 1, SINKHOLE, ttl);
    assert SINKHOLE.records[0][..4] == [0, 0, 0, 0];
    var r := CachedResponse(request, 1, SINKHOLE, ttl);
    assert RecordAt(r, |request| + 0 * (12 + 4), Record(1, 1, ttl, SINKHOLE.records[0][..4]));
  }

  // ------------------------------------------------------------------
  // Replies
  // ------------------------------------------------------------------

  ghost predicate AllOk(rs: seq<Record>) {
    forall i :: 0 <= i < |rs| ==> RecordOk(rs[i])
  }

  ghost function Section(rs: seq<Record>): Packet
    requires AllOk(rs)
  {
    if rs == [] then [] else Encoded(rs[0]) + Section(rs[1..])
  }

  lemma FieldsReadBack(b: Packet, p: nat, r: Record)
    requires RecordAt(b, p, r)
    ensures b[p] == 0xC0 && U16(b, p + 2) == r.rtype && U16(b, p + 4) == r.rclass && U16(b, p + 10) == |r.rdata|
    ensures U32(b, p + 6) == r.ttl && b[p + 12..p + 12 + |r.rdata|] == r.rdata
  {
    var a := b[p..p + 12 + |r.rdata|];
    assert a[0] == b[p] && a[2] == b[p + 2] && a[3] == b[p + 3] && a[4] == b[p + 4] && a[5] == b[p + 5];
    assert a[6] == b[p + 6] && a[7] == b[p + 7] && a[8] == b[p + 8] && a[9] == b[p + 9] && a[10] == b[p + 10] && a[11] == b[p + 11];
    TtlParts(r.ttl);
    assert b[p + 12..p + 12 + |r.rdata|] == a[12..] == r.rdata;
  }

  lemma EncodedReadsBack(b: Packet, p: nat, r: Record)
    requires RecordAt(b, p, r)
    ensures ReadRecord(b, p) == Some((r, p + 12 + |r.rdata|))
  {
    hide Encoded, U16, U32;
    FieldsReadBack(b, p, r);
    assert SkipName(b, p) == Some(p + 2);
  }

  // The section stands at p, whatever comes behind it.
  ghost predicate SectionAt(b: Packet, p: nat, rs: seq<Record>) {
    AllOk(rs) && p <= |b| && Section(rs) <= b[p..]
  }

  lemma SectionStep(b: Packet, p: nat, r: Record, rest: seq<Record>)
    requires RecordAt(b, p, r) && ReadRecords(b, p + 12 + |r.rdata|, |rest|) == rest
    ensures ReadRecords(b, p, |rest| + 1) == [r] + rest
  {
    hide ReadRecord, ReadRecords, RecordAt;
    EncodedReadsBack(b, p, r);
    ReadRecordsCons(b, p, |rest| + 1, r, p + 12 + |r.rdata|);
  }

  // A section of any records is read as those records.
  lemma {:induction false} SectionReadsBack(b: Packet, p: nat, rs: seq<Record>)
    requires SectionAt(b, p, rs)
    ensures ReadRecords(b, p, |rs|) == rs
    decreases |rs|
  {
    hide ReadRecords, RecordAt, SectionAt;
    if rs == [] {
      NoneRead(b, p);
    } else {
      SectionFirst(b, p, rs);
      SectionReadsBack(b, p + 12 + |rs[0].rdata|, rs[1..]);
      SectionStep(b, p, rs[0], rs[1..]);
      ConsOf(rs);
    }
  }

  lemma NoneRead(b: Packet, p: nat)
    ensures ReadRecords(b, p, 0) == []
  {
  }

  lemma SectionFirst(b: Packet, p: nat, rs: seq<Record>)
    requires rs != [] && SectionAt(b, p, rs)
    ensures RecordAt(b, p, rs[0]) && SectionAt(b, p + 12 + |rs[0].rdata|, rs[1..])
  {
    hide Encoded;
    var x, y := Encoded(rs[0]), Section(rs[1..]);
    var s := b[p..];
    assert s[..|x| + |y|] == x + y;
    assert b[p..p + |x|] == s[..|x|] == (x + y)[..|x|] == x;
    assert b[p + |x|..][..|y|] == s[..|x| + |y|][|x|..] == y;
  }

  // The records that answer a query: its type, class IN, and an address of that
  // type's length.
  predicate AnswersQuery(r: Record, qtype: nat) {
    r.rtype == qtype && r.rclass == 1 && |r.rdata| == (if qtype == 28 then 16 else 4)
  }

  // The positions of ms in rs, in order.
  ghost predicate Picked(rs: seq<Record>, ms: seq<Record>, at: seq<nat>) {
    && |at| == |ms|
    && (forall i :: 0 <= i < |at| ==> at[i] < |rs| && ms[i] == rs[at[i]])
    && (forall i, j :: 0 <= i < j < |at| ==> at[i] < at[j])
  }

  function Shifted(at: seq<nat>): (r: seq<nat>)
    ensures |r| == |at| && forall i :: 0 <= i < |at| ==> r[i] == at[i] + 1
  {
    seq(|at|, i requires 0 <= i < |at| => at[i] + 1)
  }

  lemma ShiftedHas(at: seq<nat>, k: nat)
    ensures k + 1 in Shifted(at) <==> k in at
  {
    if k in at {
      var i :| 0 <= i < |at| && at[i] == k;
      assert Shifted(at)[i] == k + 1;
    }
  }

  lemma PickedLater(r: Record, rs: seq<Record>, ms: seq<Record>, at: seq<nat>)
    requires Picked(rs, ms, at)
    ensures Picked([r] + rs, ms, Shifted(at))
  {
    var all, s := [r] + rs, Shifted(at);
    forall i | 0 <= i < |at| ensures s[i] < |all| && ms[i] == all[s[i]] {
      assert all[at[i] + 1] == rs[at[i]];
    }
  }

  lemma PickedFirst(r: Record, rs: seq<Record>, ms: seq<Record>, at: seq<nat>)
    requires Picked([r] + rs, ms, at) && forall i :: 0 <= i < |at| ==> at[i] > 0
    ensures Picked([r] + rs, [r] + ms, [0] + at)
  {
    var all, more, s := [r] + rs, [r] + ms, [0] + at;
    forall i | 0 <= i < |s| ensures s[i] < |all| && more[i] == all[s[i]] {
      if i > 0 { assert s[i] == at[i - 1] && more[i] == ms[i - 1]; }
    }
    forall i, j | 0 <= i < j < |s| ensures s[i] < s[j] {
      assert s[j] == at[j - 1];
      if i > 0 { assert s[i] == at[i - 1]; }
    }
  }

  // What is collected of readable records: the first eight that answer the query,
  // whatever stands between them.
  lemma {:induction false} MatchingPicks(rs: seq<Record>, qtype: nat) returns (at: seq<nat>)
    ensures Picked(rs, Matching(rs, qtype, Width(qtype)), at)
    ensures forall k :: 0 <= k < |rs| ==> (AnswersQuery(rs[k], qtype) <==> k in at)
  {
    if rs == [] {
      at := [];
    } else {
      hide Picked;
      var r, rest := rs[0], rs[1..];
      var later := MatchingPicks(rest, qtype);
      var ms := Matching(rest, qtype, Width(qtype));
      PickedLater(r, rest, ms, later);
      PickedFirst(r, rest, ms, Shifted(later));
      ConsOf(rs);
      at := if AnswersQuery(r, qtype) then [0] + Shifted(later) else Shifted(later);
      forall k | 0 <= k < |rs| ensures AnswersQuery(rs[k], qtype) <==> k in at {
        if k > 0 {
          ShiftedHas(later, k - 1);
          assert rs[k] == rest[k - 1];
        }
      }
    }
  }

  lemma CollectedPicks(b: Packet, qtype: nat) returns (at: seq<nat>)
    ensures var rs := Readable(b);
      && (forall k :: 0 <= k < |rs| ==> (AnswersQuery(rs[k], qtype) <==> k in at))
      && |Collected(b, qtype)| == (if |at| > 8 then 8 else |at|)
      && Picked(rs, Collected(b, qtype), at[..|Collected(b, qtype)|])
  {
    hide Matching, Readable;
    at := MatchingPicks(Readable(b), qtype);
  }

  // What is cached of them: their data, for the least of their TTLs, unless that is
  // 0 or 2^32-1.
  lemma CacheableIs(b: Packet, qtype: nat)
    ensures var rs := Collected(b, qtype);
      && (Cacheable(b, qtype).None? <==>
            || rs == [] || (exists i :: 0 <= i < |rs| && rs[i].ttl == 0)
            || forall i :: 0 <= i < |rs| ==> rs[i].ttl >= 0xFFFF_FFFF)
      && (Cacheable(b, qtype).Some? ==>
            var (p, ttl) := Cacheable(b, qtype).value;
            && p.numRecords == |p.records| == |rs| && p.recordBytes == (if qtype == 28 then 16 else 4)
            && (forall i :: 0 <= i < |rs| ==> p.records[i] == rs[i].rdata && ttl <= rs[i].ttl)
            && exists i :: 0 <= i < |rs| && ttl == rs[i].ttl)
  {
    hide Collected;
    var rs := Collected(b, qtype);
    var least := MinTtl(rs);
    if least == 0 { assert exists i :: 0 <= i < |rs| && rs[i].ttl == 0; }
  }

  // A reply without an error to one question, with |rs| answers.
  ghost predicate IsReply(b: Packet, ws: seq<Label>, e: nat, rs: seq<Record>) {
    && HEADER <= e && e + 5 <= |b|
    && b[3] % 16 == 0 && b[4] == 0 && b[5] == 1 && (b[6] as int) * 256 + (b[7] as int) == |rs| > 0
    && OnWire(b, ws, e) && b[e] == 0 && (forall i :: 0 <= i < |ws| ==> |ws[i]| < 192)
    && SectionAt(b, e + 5, rs)
  }

  lemma ReplyReads(b: Packet, ws: seq<Label>, e: nat, rs: seq<Record>)
    requires IsReply(b, ws, e, rs)
    ensures Readable(b) == rs
  {
    hide Spells, OnWire, ReadRecords, SkipName;
    var ls := LowerLabels(ws);
    SpellsIsOnWire(b, ws, e);
    assert ls[..0] == [];
    SpellsNothing(b);
    SkipsSpelledName(b, ls, HEADER, e, 0);
    assert SkipQuestions(b, HEADER, 1) == SkipQuestions(b, e + 5, 0) == Some(e + 5);
    SectionReadsBack(b, e + 5, rs);
  }

  lemma SpellsNothing(b: Packet)
    ensures Spells(b, [], HEADER)
  {
  }

  // Nothing is cached of a reply that is too short or reports an error.
  lemma ErrorsAreNotCached(b: Packet, qtype: nat)
    requires |b| < 12 || b[3] % 16 != 0
    ensures Readable(b) == [] && Cacheable(b, qtype) == None
  {
  }
}
