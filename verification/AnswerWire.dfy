// The answer side of the DNS codec: the name skipper, the walk over an upstream
// reply's answer section, and the two response builders (RFC 1035 sections
// 4.1.1, 4.1.3 and 4.1.4).
module AnswerWire {
  import opened Prelude
  import opened Question
  import opened AnswerCache

  const U32_MAX: nat := 0xFFFF_FFFF

  function U32(b: Packet, p: nat): nat
    requires p + 4 <= |b|
  {
    U16(b, p) * 65536 + U16(b, p + 2)
  }

  // Network byte order.
  function Put16(n: nat): (r: Packet)
    requires n < 65536
    ensures |r| == 2
  {
    [n / 256, n % 256]
  }

  function Put32(n: nat): (r: Packet)
    requires n <= U32_MAX
    ensures |r| == 4
  {
    Put16(n / 65536) + Put16(n % 65536)
  }

  lemma Get16Put16(b: Packet, p: nat, n: nat)
    requires n < 65536 && p + 2 <= |b| && b[p..p + 2] == Put16(n)
    ensures U16(b, p) == n
  {
    assert b[p] == b[p..p + 2][0] && b[p + 1] == b[p..p + 2][1];
  }

  lemma Get32Put32(b: Packet, p: nat, n: nat)
    requires n <= U32_MAX && p + 4 <= |b| && b[p..p + 4] == Put32(n)
    ensures U32(b, p) == n
  {
    assert b[p..p + 2] == b[p..p + 4][..2] && b[p + 2..p + 4] == b[p..p + 4][2..];
    Get16Put16(b, p, n / 65536);
    Get16Put16(b, p + 2, n % 65536);
  }

  // ------------------------------------------------------------------
  // What a reply says
  // ------------------------------------------------------------------

  // The position after the name at p: two bytes past a compression pointer, one
  // past a root label.
  function SkipName(b: Packet, p: nat): (r: Option<nat>)
    ensures r.Some? ==> p < r.value <= |b|
    decreases |b| - p
  {
    if p >= |b| then None
    else if b[p] >= 192 then (if p + 2 <= |b| then Some(p + 2) else None)
    else if b[p] == 0 then Some(p + 1)
    else SkipName(b, p + 1 + b[p])
  }

  function SkipQuestions(b: Packet, p: nat, n: nat): (r: Option<nat>)
    ensures r.Some? ==> p <= r.value && (n > 0 ==> r.value <= |b|)
    decreases n
  {
    if n == 0 then Some(p)
    else match SkipName(b, p)
      case None => None
      case Some(q) => if q + 4 <= |b| then SkipQuestions(b, q + 4, n - 1) else None
  }

  datatype Record = Record(rtype: nat, rclass: nat, ttl: nat, rdata: seq<Byte>)

  function ReadRecord(b: Packet, p: nat): (r: Option<(Record, nat)>)
    ensures r.Some? ==> p < r.value.1 <= |b|
  {
    match SkipName(b, p)
    case None => None
    case Some(q) =>
      if q + 10 > |b| then None
      else
        var n := U16(b, q + 8);
        if q + 10 + n > |b| then None
        else Some((Record(U16(b, q), U16(b, q + 2), U32(b, q + 4), b[q + 10..q + 10 + n]), q + 10 + n))
  }

  // The longest well-formed prefix, of at most n records, of the section at p.
  function ReadRecords(b: Packet, p: nat, n: nat): seq<Record>
    decreases n
  {
    if n == 0 then []
    else match ReadRecord(b, p)
      case None => []
      case Some((r, q)) => [r] + ReadRecords(b, q, n - 1)
  }

  predicate Matches(r: Record, qtype: nat, width: nat) {
    r.rtype == qtype && r.rclass == 1 && |r.rdata| == width
  }

  function Matching(rs: seq<Record>, qtype: nat, width: nat): seq<Record> {
    if rs == [] then []
    else if Matches(rs[0], qtype, width) then [rs[0]] + Matching(rs[1..], qtype, width)
    else Matching(rs[1..], qtype, width)
  }

  function FirstEight(rs: seq<Record>): seq<Record> {
    if |rs| <= MAX_RECORDS then rs else rs[..MAX_RECORDS]
  }

  // The least TTL; 2^32-1 for no records.
  function MinTtl(rs: seq<Record>): (t: nat)
    ensures forall i :: 0 <= i < |rs| ==> t <= rs[i].ttl
    ensures t <= U32_MAX
    ensures t == U32_MAX || exists i :: 0 <= i < |rs| && t == rs[i].ttl
  {
    if rs == [] then U32_MAX
    else MinNat(MinTtl(rs[..|rs| - 1]), rs[|rs| - 1].ttl)
  }

  function Rdatas(rs: seq<Record>): (d: seq<seq<Byte>>)
    ensures |d| == |rs| && forall i :: 0 <= i < |rs| ==> d[i] == rs[i].rdata
  {
    seq(|rs|, i requires 0 <= i < |rs| => rs[i].rdata)
  }

  function Width(qtype: nat): nat {
    if qtype == 28 then 16 else 4
  }

  // The reply's header and question section are readable: where the answer
  // section starts, and how many records it claims.
  function AnswerSection(b: Packet): (r: Option<(nat, nat)>) {
    if |b| < HEADER || b[3] % 16 != 0 || U16(b, 6) == 0 then None
    else match SkipQuestions(b, HEADER, U16(b, 4))
      case None => None
      case Some(p) => Some((p, U16(b, 6)))
  }

  // The longest well-formed prefix of the answer section; nothing when the header
  // or the question is bad.
  function Readable(b: Packet): seq<Record> {
    match AnswerSection(b)
    case None => []
    case Some((p, n)) => ReadRecords(b, p, n)
  }

  // Its first eight matching records.
  function Collected(b: Packet, qtype: nat): seq<Record> {
    FirstEight(Matching(Readable(b), qtype, Width(qtype)))
  }

  // The cacheable part of a reply.
  function Cacheable(b: Packet, qtype: nat): (r: Option<(Payload, nat)>) {
    var rs := Collected(b, qtype);
    var ttl := MinTtl(rs);
    if rs == [] || ttl == 0 || ttl == U32_MAX then None
    else Some((Payload(Rdatas(rs), |rs|, Width(qtype)), ttl))
  }

  lemma {:induction false} MatchingMatches(rs: seq<Record>, qtype: nat, width: nat)
    ensures forall i :: 0 <= i < |Matching(rs, qtype, width)| ==> Matches(Matching(rs, qtype, width)[i], qtype, width)
  {
    if rs != [] { MatchingMatches(rs[1..], qtype, width); }
  }

  lemma CollectedMatches(b: Packet, qtype: nat)
    ensures |Collected(b, qtype)| <= MAX_RECORDS
    ensures forall i :: 0 <= i < |Collected(b, qtype)| ==> Matches(Collected(b, qtype)[i], qtype, Width(qtype))
  {
    MatchingMatches(Readable(b), qtype, Width(qtype));
  }

  // ------------------------------------------------------------------
  // skip_dns_name and parse_answer_records
  // ------------------------------------------------------------------

  method SkipDnsName(b: Packet, start: nat) returns (r: Option<nat>)
    ensures r == SkipName(b, start)
  {
    var p := start;
    while p < |b|
      invariant SkipName(b, p) == SkipName(b, start)
      decreases |b| - p
    {
      var len := b[p];
      if len >= 192 {
        if p + 2 <= |b| { return Some(p + 2); }
        return None;
      }
      if len == 0 {
        return Some(p + 1);
      }
      p := p + 1 + len;
    }
    return None;
  }

  // The rest of the walk: n records to go from p, acc collected so far.
  function Collect(b: Packet, p: nat, n: nat, qtype: nat, acc: seq<Record>): seq<Record>
    decreases n
  {
    if n == 0 || |acc| >= MAX_RECORDS then acc
    else match ReadRecord(b, p)
      case None => acc
      case Some((r, q)) => Collect(b, q, n - 1, qtype, if Matches(r, qtype, Width(qtype)) then acc + [r] else acc)
  }

  lemma NoRecords()
    ensures MinTtl([]) == U32_MAX
  {
  }

  lemma CollectEnd(b: Packet, p: nat, n: nat, qtype: nat, acc: seq<Record>)
    requires n == 0 || |acc| >= MAX_RECORDS
    ensures Collect(b, p, n, qtype, acc) == acc
  {
  }

  lemma CollectStep(b: Packet, p: nat, n: nat, qtype: nat, acc: seq<Record>)
    requires n > 0 && |acc| < MAX_RECORDS
    ensures match ReadRecord(b, p)
      case None => Collect(b, p, n, qtype, acc) == acc
      case Some((r, q)) =>
        Collect(b, p, n, qtype, acc) == Collect(b, q, n - 1, qtype, if Matches(r, qtype, Width(qtype)) then acc + [r] else acc)
  {
  }

  lemma MatchingCons(r: Record, rs: seq<Record>, qtype: nat, acc: seq<Record>)
    ensures acc + Matching([r] + rs, qtype, Width(qtype)) ==
      (if Matches(r, qtype, Width(qtype)) then acc + [r] else acc) + Matching(rs, qtype, Width(qtype))
  {
    assert ([r] + rs)[1..] == rs;
  }

  lemma FullIsFull(acc: seq<Record>, more: seq<Record>)
    requires |acc| == MAX_RECORDS
    ensures FirstEight(acc + more) == acc
  {
    assert (acc + more)[..MAX_RECORDS] == acc;
  }

  // The walk collects the first eight matching records of the well-formed prefix.
  lemma {:induction false} CollectIsFirstEight(b: Packet, p: nat, n: nat, qtype: nat, acc: seq<Record>)
    requires |acc| <= MAX_RECORDS
    ensures Collect(b, p, n, qtype, acc) == FirstEight(acc + Matching(ReadRecords(b, p, n), qtype, Width(qtype)))
    decreases n
  {
    if |acc| == MAX_RECORDS {
      FullIsFull(acc, Matching(ReadRecords(b, p, n), qtype, Width(qtype)));
    } else if n == 0 || ReadRecord(b, p).None? {
      assert acc + [] == acc;
    } else {
      var (r, q) := ReadRecord(b, p).value;
      MatchingCons(r, ReadRecords(b, q, n - 1), qtype, acc);
      CollectIsFirstEight(b, q, n - 1, qtype, if Matches(r, qtype, Width(qtype)) then acc + [r] else acc);
    }
  }

  lemma AddRecord(acc: seq<Record>, r: Record)
    ensures Rdatas(acc + [r]) == Rdatas(acc) + [r.rdata]
    ensures MinTtl(acc + [r]) == if r.ttl < MinTtl(acc) then r.ttl else MinTtl(acc)
  {
    assert (acc + [r])[..|acc|] == acc;
  }

  // Skips the questions the reply claims to have.
  method SkipQuestionSection(b: Packet, qdcount: nat) returns (r: Option<nat>)
    ensures r == SkipQuestions(b, HEADER, qdcount)
  {
    var p := HEADER;
    for i := 0 to qdcount
      invariant SkipQuestions(b, p, qdcount - i) == SkipQuestions(b, HEADER, qdcount)
    {
      var q := SkipDnsName(b, p);
      if q == None || q.value + 4 > |b| {
        return None;
      }
      p := q.value + 4;
    }
    return Some(p);
  }

  // The fields of one record, or none when the section is malformed at p.
  method NextRecord(b: Packet, start: nat) returns (r: Option<(Record, nat)>)
    ensures r == ReadRecord(b, start)
  {
    var name := SkipDnsName(b, start);
    if name == None || name.value + 10 > |b| {
      return None;
    }
    var p := name.value;
    var rtype := U16(b, p);
    var rclass := U16(b, p + 2);
    var rttl := U32(b, p + 4);
    var rdlength := U16(b, p + 8);
    p := p + 10;
    if p + rdlength > |b| {
      return None;
    }
    return Some((Record(rtype, rclass, rttl, b[p..p + rdlength]), p + rdlength));
  }

  // The caller's structure, with its eight rows of sixteen bytes.
  class AnswerBuffer {
    const records: array<seq<Byte>>
    var numRecords: nat
    var recordBytes: nat
    var ttl: nat

    ghost predicate Valid()
      reads this, records
    {
      records.Length == MAX_RECORDS && forall i :: 0 <= i < records.Length ==> |records[i]| == RECORD_BYTES
    }

    constructor ()
      ensures Valid() && fresh(records)
    {
      records := new seq<Byte>[MAX_RECORDS](_ => seq(RECORD_BYTES, _ => 0));
      numRecords, recordBytes, ttl := 0, 0, 0;
    }

    // The part of the structure that counts.
    function Stored(): Payload
      requires Valid() && numRecords <= MAX_RECORDS && recordBytes <= RECORD_BYTES
      reads this, records
    {
      Payload(seq(numRecords, i requires 0 <= i < numRecords reads this, records requires Valid() && numRecords <= MAX_RECORDS && recordBytes <= RECORD_BYTES => records[i][..recordBytes]), numRecords, recordBytes)
    }
  }

  // The rows after the data of some records has been copied over the first ones.
  function Overwritten(rows: seq<seq<Byte>>, rs: seq<Record>): (r: seq<seq<Byte>>)
    requires |rs| <= |rows| && forall i :: 0 <= i < |rs| ==> |rs[i].rdata| <= |rows[i]|
    ensures |r| == |rows|
    ensures forall i :: 0 <= i < |rows| ==> r[i] == if i < |rs| then rs[i].rdata + rows[i][|rs[i].rdata|..] else rows[i]
  {
    seq(|rows|, i requires 0 <= i < |rows| => if i < |rs| then rs[i].rdata + rows[i][|rs[i].rdata|..] else rows[i])
  }

  lemma OneRowMore(rows: seq<seq<Byte>>, rs: seq<Record>, r: Record)
    requires |rs| < |rows| && forall i :: 0 <= i < |rs| ==> |rs[i].rdata| <= |rows[i]|
    requires |r.rdata| <= |rows[|rs|]|
    ensures Overwritten(rows, rs + [r]) == Overwritten(rows, rs)[|rs| := r.rdata + rows[|rs|][|r.rdata|..]]
  {
  }

  ghost predicate AllMatching(rs: seq<Record>, qtype: nat) {
    |rs| <= MAX_RECORDS && forall i :: 0 <= i < |rs| ==> |rs[i].rdata| == Width(qtype)
  }

  ghost predicate AllRows(rows: seq<seq<Byte>>) {
    |rows| == MAX_RECORDS && forall i :: 0 <= i < |rows| ==> |rows[i]| == RECORD_BYTES
  }

  // The rows as they are, when rs has been copied over rows.
  ghost predicate Copied(now: seq<seq<Byte>>, rows: seq<seq<Byte>>, rs: seq<Record>, qtype: nat) {
    AllRows(rows) && AllRows(now) && AllMatching(rs, qtype) && now == Overwritten(rows, rs)
  }

  lemma NothingCopied(rows: seq<seq<Byte>>, qtype: nat)
    requires AllRows(rows)
    ensures Copied(rows, rows, [], qtype)
  {
  }

  // One record's data into the next row.
  method CopyRow(out: AnswerBuffer, rec: Record, qtype: nat, count: nat, ghost rows: seq<seq<Byte>>, ghost acc: seq<Record>)
    requires count == |acc| < MAX_RECORDS && |rec.rdata| == Width(qtype) && Copied(out.records[..], rows, acc, qtype)
    modifies out.records
    ensures Copied(out.records[..], rows, acc + [rec], qtype)
  {
    ghost var was := out.records[..];
    assert |was| == out.records.Length;
    assert out.records[count] == was[count] == rows[count];
    OneRowMore(rows, acc, rec);
    out.records[count] := rec.rdata + out.records[count][|rec.rdata|..];
    assert out.records[..] == was[count := rec.rdata + rows[count][|rec.rdata|..]];
  }

  // The answer loop: rows filled in order, and the least TTL of their records.
  method CollectRecords(reply: Packet, start: nat, ancount: nat, qtype: nat, out: AnswerBuffer) returns (count: nat, minTtl: nat)
    requires AllRows(out.records[..])
    modifies out.records
    ensures var rs := Collect(reply, start, ancount, qtype, []);
      && Copied(out.records[..], old(out.records[..]), rs, qtype)
      && count == |rs| && minTtl == MinTtl(rs)
  {
    hide Copied, AllRows, Collect, MinTtl, ReadRecord;
    var p := start;
    var expectedBytes := if qtype == 28 then 16 else 4;
    count, minTtl := 0, U32_MAX;
    ghost var acc: seq<Record> := [];
    ghost var rows := out.records[..];
    NothingCopied(rows, qtype);
    NoRecords();
    var i := 0;
    while i < ancount && count < MAX_RECORDS
      invariant i <= ancount
      invariant count == |acc| && Copied(out.records[..], rows, acc, qtype)
      invariant Collect(reply, p, ancount - i, qtype, acc) == Collect(reply, start, ancount, qtype, [])
      invariant minTtl == MinTtl(acc)
    {
      CollectStep(reply, p, ancount - i, qtype, acc);
      var next := NextRecord(reply, p);
      if next == None {
        return;
      }
      var (rec, q) := next.value;
      if rec.rtype == qtype && rec.rclass == 1 && |rec.rdata| == expectedBytes {
        AddRecord(acc, rec);
        CopyRow(out, rec, qtype, count, rows, acc);
        if rec.ttl < minTtl { minTtl := rec.ttl; }
        count := count + 1;
        acc := acc + [rec];
      }
      p := q;
      i := i + 1;
    }
    CollectEnd(reply, p, ancount - i, qtype, acc);
  }

  lemma CollectAll(b: Packet, p: nat, n: nat, qtype: nat)
    ensures Collect(b, p, n, qtype, []) == FirstEight(Matching(ReadRecords(b, p, n), qtype, Width(qtype)))
  {
    CollectIsFirstEight(b, p, n, qtype, []);
    var all := Matching(ReadRecords(b, p, n), qtype, Width(qtype));
    assert [] + all == all;
  }

  // Whether it succeeds or fails, exactly the collected records have been copied
  // into the rows by then; the other fields are set on success only.
  method ParseAnswerRecords(reply: Packet, qtype: nat, out: AnswerBuffer) returns (ok: bool)
    requires out.Valid()
    modifies out, out.records
    ensures out.Valid() && Copied(out.records[..], old(out.records[..]), Collected(reply, qtype), qtype)
    ensures ok <==> Cacheable(reply, qtype).Some?
    ensures ok ==>
      && out.numRecords <= MAX_RECORDS && out.recordBytes <= RECORD_BYTES
      && Cacheable(reply, qtype) == Some((out.Stored(), out.ttl))
    ensures !ok ==> out.numRecords == old(out.numRecords) && out.recordBytes == old(out.recordBytes) && out.ttl == old(out.ttl)
  {
    ghost var rows := out.records[..];
    assert AllRows(rows);
    var count, minTtl := WalkAnswers(reply, qtype, out);
    RowsAgain(out, rows, Collected(reply, qtype), qtype);
    ok := false;
    if count == 0 || minTtl == 0 || minTtl == U32_MAX {
      return;
    }
    out.numRecords, out.recordBytes, out.ttl := count, if qtype == 28 then 16 else 4, minTtl;
    StoredRows(out, rows, Collected(reply, qtype), qtype);
    ok := true;
  }

  lemma RowsAgain(out: AnswerBuffer, rows: seq<seq<Byte>>, rs: seq<Record>, qtype: nat)
    requires Copied(out.records[..], rows, rs, qtype)
    ensures out.Valid() && |rs| <= MAX_RECORDS
  {
    var now := out.records[..];
    assert forall i :: 0 <= i < out.records.Length ==> out.records[i] == now[i];
  }

  // The header, the question section and the answer loop.
  method WalkAnswers(reply: Packet, qtype: nat, out: AnswerBuffer) returns (count: nat, minTtl: nat)
    requires AllRows(out.records[..])
    modifies out.records
    ensures Copied(out.records[..], old(out.records[..]), Collected(reply, qtype), qtype)
    ensures count == |Collected(reply, qtype)| && minTtl == MinTtl(Collected(reply, qtype))
  {
    hide Collect, ReadRecords, SkipQuestions, Copied, AllRows;
    count, minTtl := 0, U32_MAX;
    NothingCopied(out.records[..], qtype);
    if |reply| < HEADER || reply[3] % 16 != 0 {
      return;
    }
    var qdcount := U16(reply, 4);
    var ancount := U16(reply, 6);
    if ancount == 0 {
      return;
    }
    var start := SkipQuestionSection(reply, qdcount);
    if start == None {
      return;
    }
    count, minTtl := CollectRecords(reply, start.value, ancount, qtype, out);
    CollectAll(reply, start.value, ancount, qtype);
  }

  lemma StoredRows(out: AnswerBuffer, rows: seq<seq<Byte>>, rs: seq<Record>, qtype: nat)
    requires out.Valid() && Copied(out.records[..], rows, rs, qtype)
    requires out.numRecords == |rs| && out.recordBytes == Width(qtype)
    ensures out.Stored() == Payload(Rdatas(rs), |rs|, Width(qtype))
  {
    forall i | 0 <= i < |rs| ensures out.records[i][..Width(qtype)] == rs[i].rdata {
      assert out.records[i] == out.records[..][i];
    }
    assert out.Stored().records == Rdatas(rs);
  }

  // On failure no row has been written exactly if no readable record matches --
  // none is readable when the header or the question is bad.  Otherwise the least
  // TTL was 0 or 2^32-1.
  lemma RowsWrittenOnFailure(reply: Packet, qtype: nat)
    requires Cacheable(reply, qtype).None?
    ensures Collected(reply, qtype) == [] <==> forall r :: r in Readable(reply) ==> !Matches(r, qtype, Width(qtype))
    ensures AnswerSection(reply).None? ==> Collected(reply, qtype) == []
    ensures Collected(reply, qtype) != [] ==> MinTtl(Collected(reply, qtype)) == 0 || MinTtl(Collected(reply, qtype)) == U32_MAX
  {
    hide MinTtl, Readable;
    MatchingEmptyIff(Readable(reply), qtype, Width(qtype));
    if AnswerSection(reply).None? { NothingReadable(reply); }
  }

  lemma NothingReadable(reply: Packet)
    requires AnswerSection(reply).None?
    ensures Readable(reply) == []
  {
  }

  lemma {:induction false} MatchingEmptyIff(rs: seq<Record>, qtype: nat, width: nat)
    ensures Matching(rs, qtype, width) == [] <==> forall r :: r in rs ==> !Matches(r, qtype, width)
  {
    if rs != [] {
      MatchingEmptyIff(rs[1..], qtype, width);
      ConsOf(rs);
      assert forall r :: r in rs <==> r == rs[0] || r in rs[1..];
    }
  }

  // ------------------------------------------------------------------
  // The response builders
  // ------------------------------------------------------------------

  // The request with the response flags and the answer count in its header.
  function Head(request: Packet, ancount: nat): (r: Packet)
    requires |request| >= HEADER && ancount < 65536
    ensures |r| == |request|
  {
    request[..2] + [0x81, 0x80] + request[4..6] + Put16(ancount) + request[8..]
  }

  // One answer: a compression pointer to the question's name, then the fields.
  function Answer(qtype: nat, ttl: nat, width: nat, rdata: seq<Byte>): (r: Packet)
    requires qtype < 65536 && ttl <= U32_MAX && width < 65536
    ensures |r| == 12 + |rdata|
  {
    [0xC0, 0x0C] + Put16(qtype) + Put16(1) + Put32(ttl) + Put16(width) + rdata
  }

  function Answers(qtype: nat, ttl: nat, width: nat, rdatas: seq<seq<Byte>>): (r: Packet)
    requires qtype < 65536 && ttl <= U32_MAX && width < 65536
    requires forall i :: 0 <= i < |rdatas| ==> |rdatas[i]| == width
  {
    if rdatas == [] then []
    else Answers(qtype, ttl, width, rdatas[..|rdatas| - 1]) + Answer(qtype, ttl, width, rdatas[|rdatas| - 1])
  }

  lemma {:induction false} AnswersLength(qtype: nat, ttl: nat, width: nat, rdatas: seq<seq<Byte>>)
    requires qtype < 65536 && ttl <= U32_MAX && width < 65536
    requires forall i :: 0 <= i < |rdatas| ==> |rdatas[i]| == width
    ensures |Answers(qtype, ttl, width, rdatas)| == |rdatas| * (12 + width)
  {
    if rdatas != [] {
      var n := |rdatas|;
      AnswersLength(qtype, ttl, width, rdatas[..n - 1]);
      assert n * (12 + width) == (n - 1) * (12 + width) + (12 + width);
    }
  }

  predicate PayloadOk(p: Payload) {
    && p.numRecords <= |p.records| && p.numRecords < 256 && p.recordBytes < 256
    && forall i :: 0 <= i < p.numRecords ==> p.recordBytes <= |p.records[i]|
  }

  // The rows a payload really holds.
  function Rows(p: Payload): (d: seq<seq<Byte>>)
    requires PayloadOk(p)
    ensures |d| == p.numRecords && forall i :: 0 <= i < |d| ==> d[i] == p.records[i][..p.recordBytes]
  {
    seq(p.numRecords, i requires 0 <= i < p.numRecords => p.records[i][..p.recordBytes])
  }

  function CachedResponse(request: Packet, qtype: nat, p: Payload, ttl: nat): (r: Packet)
    requires |request| >= HEADER && qtype < 65536 && PayloadOk(p) && ttl <= U32_MAX
    ensures |r| == |request| + p.numRecords * (12 + p.recordBytes)
  {
    AnswersLength(qtype, ttl, p.recordBytes, Rows(p));
    Head(request, p.numRecords) + Answers(qtype, ttl, p.recordBytes, Rows(p))
  }

  // memcpy.
  method Copy(out: array<Byte>, at: nat, bytes: seq<Byte>)
    requires at + |bytes| <= out.Length
    modifies out
    ensures out[at..at + |bytes|] == bytes
    ensures forall i :: 0 <= i < out.Length && !(at <= i < at + |bytes|) ==> out[i] == old(out[i])
  {
    forall i | 0 <= i < |bytes| {
      out[at + i] := bytes[i];
    }
  }

  lemma HeadIs(request: Packet, ancount: nat, r: Packet)
    requires |request| == |r| >= HEADER && ancount < 65536
    requires r[..2] == request[..2] && r[2..4] == [0x81, 0x80] && r[4..6] == request[4..6]
    requires r[6..8] == Put16(ancount) && r[8..] == request[8..]
    ensures r == Head(request, ancount)
  {
    assert r == r[..2] + r[2..4] + r[4..6] + r[6..8] + r[8..];
  }

  // The part both builders share: the request, then flags and count over it.
  method PutHead(request: Packet, out: array<Byte>, ancount: nat)
    requires HEADER <= |request| <= out.Length && ancount < 65536
    modifies out
    ensures out[..|request|] == Head(request, ancount)
    ensures out[|request|..] == old(out[|request|..])
  {
    var n := |request|;
    Copy(out, 0, request);
    assert out[..n] == request && out[n..] == old(out[n..]);
    ghost var was := out[..];
    Copy(out, 2, [0x81, 0x80]);
    assert out[2] == 0x81 && out[3] == 0x80 by { assert out[2..4][0] == 0x81 && out[2..4][1] == 0x80; }
    Copy(out, 6, Put16(ancount));
    ghost var now := out[..];
    assert out[6..8] == now[6..8] == Put16(ancount);
    PutHeadBytes(request, was, now, ancount);
    assert out[..n] == now[..n] && out[n..] == now[n..];
  }

  lemma PutHeadBytes(request: Packet, was: Packet, now: Packet, ancount: nat)
    requires HEADER <= |request| <= |was| == |now| && ancount < 65536
    requires was[..|request|] == request
    requires forall i :: 0 <= i < |was| && !(2 <= i < 4) && !(6 <= i < 8) ==> now[i] == was[i]
    requires now[2] == 0x81 && now[3] == 0x80 && now[6..8] == Put16(ancount)
    ensures now[..|request|] == Head(request, ancount)
    ensures now[|request|..] == was[|request|..]
  {
    var r := now[..|request|];
    assert r[6..8] == now[6..8];
    forall i | 0 <= i < |request| && !(2 <= i < 4) && !(6 <= i < 8) ensures r[i] == request[i] {
      assert was[..|request|][i] == request[i];
    }
    HeadIs(request, ancount, r);
  }

  // Writes the next bytes and moves the write position past them.
  method Append(out: array<Byte>, p: nat, bytes: seq<Byte>) returns (p': nat)
    requires p + |bytes| <= out.Length
    modifies out
    ensures p' == p + |bytes|
    ensures out[..p'] == old(out[..p]) + bytes
  {
    Copy(out, p, bytes);
    p' := p + |bytes|;
    ghost var now := out[..];
    assert out[..p'] == now[..p] + out[p..p'];
    assert now[..p] == old(out[..p]);
  }

  lemma AnswerFields(pre: Packet, qtype: nat, ttl: nat, rdata: seq<Byte>)
    requires qtype < 65536 && ttl <= U32_MAX && |rdata| < 65536
    ensures pre + Answer(qtype, ttl, |rdata|, rdata) ==
      pre + [0xC0, 0x0C] + Put16(qtype) + Put16(1) + Put32(ttl) + Put16(|rdata|) + rdata
  {
  }

  method AppendAnswer(out: array<Byte>, start: nat, qtype: nat, ttl: nat, rdata: seq<Byte>) returns (p: nat)
    requires qtype < 65536 && ttl <= U32_MAX && |rdata| < 65536
    requires start + 12 + |rdata| <= out.Length
    modifies out
    ensures p == start + 12 + |rdata|
    ensures out[..p] == old(out[..start]) + Answer(qtype, ttl, |rdata|, rdata)
  {
    ghost var pre := out[..start];
    p := Append(out, start, [0xC0, 0x0C]);
    p := Append(out, p, Put16(qtype));
    p := Append(out, p, Put16(1));
    p := Append(out, p, Put32(ttl));
    p := Append(out, p, Put16(|rdata|));
    p := Append(out, p, rdata);
    AnswerFields(pre, qtype, ttl, rdata);
  }

  lemma Room(i: nat, n: nat, k: nat)
    requires i < n
    ensures i * k + k <= n * k
  {
    assert (i + 1) * k <= n * k;
  }

  lemma OneMore(qtype: nat, ttl: nat, width: nat, rows: seq<seq<Byte>>, i: nat)
    requires qtype < 65536 && ttl <= U32_MAX && width < 65536 && i < |rows|
    requires forall j :: 0 <= j < |rows| ==> |rows[j]| == width
    ensures Answers(qtype, ttl, width, rows[..i + 1]) == Answers(qtype, ttl, width, rows[..i]) + Answer(qtype, ttl, width, rows[i])
    ensures |Answers(qtype, ttl, width, rows[..i])| + 12 + width <= |rows| * (12 + width)
  {
    assert rows[..i + 1][..i] == rows[..i];
    AnswersLength(qtype, ttl, width, rows[..i]);
    Room(i, |rows|, 12 + width);
  }

  // What the buffer holds after i of the rows.
  ghost function Built(head: Packet, qtype: nat, ttl: nat, width: nat, rows: seq<seq<Byte>>, i: nat): Packet
    requires qtype < 65536 && ttl <= U32_MAX && width < 65536 && i <= |rows|
    requires forall j :: 0 <= j < |rows| ==> |rows[j]| == width
  {
    head + Answers(qtype, ttl, width, rows[..i])
  }

  method AppendRow(out: array<Byte>, start: nat, qtype: nat, ttl: nat, rdata: seq<Byte>, ghost head: Packet, ghost rows: seq<seq<Byte>>, ghost i: nat) returns (p: nat)
    requires qtype < 65536 && ttl <= U32_MAX && |rdata| < 65536 && i < |rows| && rdata == rows[i]
    requires forall j :: 0 <= j < |rows| ==> |rows[j]| == |rdata|
    requires out.Length >= start == |Built(head, qtype, ttl, |rdata|, rows, i)|
    requires |head| + |rows| * (12 + |rdata|) <= out.Length
    requires out[..start] == Built(head, qtype, ttl, |rdata|, rows, i)
    modifies out
    ensures p <= out.Length && p == |Built(head, qtype, ttl, |rdata|, rows, i + 1)|
    ensures out[..p] == Built(head, qtype, ttl, |rdata|, rows, i + 1)
  {
    hide Answer, Answers;
    OneMore(qtype, ttl, |rdata|, rows, i);
    p := AppendAnswer(out, start, qtype, ttl, rdata);
  }

  // 0 when the response does not fit; otherwise its length, and the response is
  // in the buffer.
  method CreateCachedAnswerResponse(request: Packet, out: array<Byte>, qtype: nat, answer: Payload, ttl: nat) returns (n: nat)
    requires |request| >= HEADER && qtype < 65536 && PayloadOk(answer) && ttl <= U32_MAX
    modifies out
    ensures n == if |request| + answer.numRecords * (12 + answer.recordBytes) > out.Length then 0 else |CachedResponse(request, qtype, answer, ttl)|
    ensures n > 0 ==> out[..n] == CachedResponse(request, qtype, answer, ttl)
  {
    hide Answer, Head, Rows;
    var perRecord := 2 + 2 + 2 + 4 + 2 + answer.recordBytes;
    var needed := |request| + answer.numRecords * perRecord;
    if needed > out.Length {
      return 0;
    }
    PutHead(request, out, answer.numRecords);
    ghost var head, rows := Head(request, answer.numRecords), Rows(answer);
    n := |request|;
    for i := 0 to answer.numRecords
      invariant n <= out.Length && n == |Built(head, qtype, ttl, answer.recordBytes, rows, i)|
      invariant out[..n] == Built(head, qtype, ttl, answer.recordBytes, rows, i)
    {
      n := AppendRow(out, n, qtype, ttl, answer.records[i][..answer.recordBytes], head, rows, i);
    }
    assert rows[..answer.numRecords] == rows;
  }

  const DEFAULT_BLOCK_TTL: nat := 60

  const BLOCKED_ANSWER: Packet :=
    [0xC0, 0x0C, 0x00, 0x01, 0x00, 0x01, 0x00, 0x00, 0x00, 0x3C, 0x00, 0x04, 0x00, 0x00, 0x00, 0x00]

  // One A record, 0.0.0.0.
  const SINKHOLE: Payload := Payload([[0, 0, 0, 0]], 1, 4)

  lemma BlockedIsAnswer(ttl: nat)
    requires ttl <= U32_MAX
    ensures BLOCKED_ANSWER[..6] + Put32(ttl) + BLOCKED_ANSWER[10..] == Answer(1, ttl, 4, [0, 0, 0, 0])
    ensures Put32(DEFAULT_BLOCK_TTL) == BLOCKED_ANSWER[6..10]
  {
  }

  lemma SinkholeResponse(request: Packet, ttl: nat)
    requires |request| >= HEADER && ttl <= U32_MAX
    ensures CachedResponse(request, 1, SINKHOLE, ttl) == Head(request, 1) + Answer(1, ttl, 4, [0, 0, 0, 0])
  {
    var rows: seq<seq<Byte>> := [[0, 0, 0, 0]];
    assert SINKHOLE.records[0][..4] == [0, 0, 0, 0];
    assert Rows(SINKHOLE) == rows;
    assert rows[..0] == [];
    assert [] + Answer(1, ttl, 4, [0, 0, 0, 0]) == Answer(1, ttl, 4, [0, 0, 0, 0]);
  }

  // The four TTL bytes of the template behind head, overwritten.
  lemma TtlWritten(head: Packet, was: Packet, now: Packet, ttl: seq<Byte>)
    requires was == head + BLOCKED_ANSWER && |now| == |was| && |ttl| == 4
    requires var k := |head| + 6; now[k..k + 4] == ttl && forall i :: 0 <= i < |was| && !(k <= i < k + 4) ==> now[i] == was[i]
    ensures now == head + (BLOCKED_ANSWER[..6] + ttl + BLOCKED_ANSWER[10..])
  {
    var k := |head| + 6;
    forall i | 0 <= i < |now| ensures now[i] == (head + (BLOCKED_ANSWER[..6] + ttl + BLOCKED_ANSWER[10..]))[i] {
      if k <= i < k + 4 { assert now[i] == now[k..k + 4][i - k]; }
    }
  }

  // The template path is the cached-answer builder run on one 0.0.0.0 A record.
  method CreateBlockedResponse(request: Packet, out: array<Byte>, ttl: nat) returns (n: nat)
    requires |request| >= HEADER && ttl <= U32_MAX && |request| + 16 <= out.Length
    modifies out
    ensures n == |request| + 16
    ensures out[..n] == CachedResponse(request, 1, SINKHOLE, ttl)
  {
    PutHead(request, out, 1);
    n := |request|;
    ghost var head := out[..n];
    n := Append(out, n, BLOCKED_ANSWER);
    ghost var was := out[..n];
    BlockedIsAnswer(ttl);
    BlockedIsAnswer(DEFAULT_BLOCK_TTL);
    if ttl != DEFAULT_BLOCK_TTL {
      Copy(out, |request| + 6, Put32(ttl));
      TtlWritten(head, was, out[..n], Put32(ttl));
    } else {
      TtlWritten(head, was, was, Put32(ttl));
    }
    SinkholeResponse(request, ttl);
  }

  // ------------------------------------------------------------------
  // The round trip
  // ------------------------------------------------------------------

  // Skipping a name looks at no byte from where it ends.
  lemma {:induction false} SkipNameLocal(b: Packet, c: Packet, p: nat)
    requires SkipName(b, p).Some? && SkipName(b, p).value <= |c|
    requires forall i :: p <= i < SkipName(b, p).value ==> b[i] == c[i]
    ensures SkipName(c, p) == SkipName(b, p)
    decreases |b| - p
  {
    if b[p] < 192 && b[p] != 0 {
      SkipNameLocal(b, c, p + 1 + b[p]);
    }
  }

  lemma NextLabel(b: Packet, ls: seq<Label>, p: nat, e: nat, i: nat)
    requires Spells(b, ls, e) && i < |ls| && Spells(b, ls[..i], p)
    ensures p < p + 1 + |ls[i]| <= e <= |b| && 0 < |ls[i]| == b[p]
    ensures Spells(b, ls[..i + 1], p + 1 + |ls[i]|)
  {
    hide Spells;
    var q := SpellsPrefix(b, ls, e, i);
    SpellsEnd(b, ls[..i], p, q);
    SpellsSnoc(b, ls[..i], p, |ls[i]|);
    assert ls[..i] + [ls[i]] == ls[..i + 1];
  }

  // On the question of an accepted query, the skipper and the parser agree on
  // where the name ends exactly when no label is long enough to be taken for a
  // compression pointer.
  lemma {:induction false} SkipsSpelledName(b: Packet, ls: seq<Label>, p: nat, e: nat, i: nat)
    requires Spells(b, ls, e) && e < |b| && b[e] == 0
    requires i <= |ls| && Spells(b, ls[..i], p)
    ensures SkipName(b, p) == Some(e + 1) <==> forall j :: i <= j < |ls| ==> |ls[j]| < 192
    decreases |ls| - i
  {
    hide Spells;
    if i == |ls| {
      assert ls[..i] == ls;
      SpellsEnd(b, ls, e, p);
    } else {
      var n := |ls[i]|;
      NextLabel(b, ls, p, e, i);
      if n < 192 {
        SkipsSpelledName(b, ls, p + 1 + n, e, i + 1);
      }
    }
  }

  lemma {:induction false} AnswersCons(qtype: nat, ttl: nat, width: nat, row: seq<Byte>, rows: seq<seq<Byte>>)
    requires qtype < 65536 && ttl <= U32_MAX && width < 65536
    requires |row| == width && forall i :: 0 <= i < |rows| ==> |rows[i]| == width
    ensures Answers(qtype, ttl, width, [row] + rows) == Answer(qtype, ttl, width, row) + Answers(qtype, ttl, width, rows)
  {
    var all := [row] + rows;
    if rows == [] {
      assert all == [row] && all[..0] == [];
    } else {
      assert all[..|all| - 1] == [row] + rows[..|rows| - 1];
      AnswersCons(qtype, ttl, width, row, rows[..|rows| - 1]);
    }
  }

  lemma ReadBack(b: Packet, p: nat, qtype: nat, ttl: nat, rdata: seq<Byte>)
    requires qtype < 65536 && ttl <= U32_MAX && |rdata| < 65536
    requires p + 12 + |rdata| <= |b| && b[p..p + 12 + |rdata|] == Answer(qtype, ttl, |rdata|, rdata)
    ensures ReadRecord(b, p) == Some((Record(qtype, 1, ttl, rdata), p + 12 + |rdata|))
  {
    var a := b[p..p + 12 + |rdata|];
    assert forall i :: 0 <= i < |a| ==> b[p + i] == a[i];
    assert SkipName(b, p) == Some(p + 2);
    assert U16(b, p + 2) == qtype && U16(b, p + 4) == 1 && U16(b, p + 10) == |rdata|;
    assert b[p + 6..p + 10] == a[6..10] == Put32(ttl);
    Get32Put32(b, p + 6, ttl);
    assert b[p + 12..p + 12 + |rdata|] == a[12..] == rdata;
  }

  function AsRecords(qtype: nat, ttl: nat, rows: seq<seq<Byte>>): (rs: seq<Record>)
    ensures |rs| == |rows| && forall i :: 0 <= i < |rs| ==> rs[i] == Record(qtype, 1, ttl, rows[i])
  {
    seq(|rows|, i requires 0 <= i < |rows| => Record(qtype, 1, ttl, rows[i]))
  }

  lemma AsRecordsCons(qtype: nat, ttl: nat, rows: seq<seq<Byte>>)
    requires rows != []
    ensures AsRecords(qtype, ttl, rows) == [Record(qtype, 1, ttl, rows[0])] + AsRecords(qtype, ttl, rows[1..])
  {
  }

  lemma ReadRecordsCons(b: Packet, p: nat, n: nat, r: Record, q: nat)
    requires n > 0 && ReadRecord(b, p) == Some((r, q))
    ensures ReadRecords(b, p, n) == [r] + ReadRecords(b, q, n - 1)
  {
  }

  // The packet from p on, when it is x and then y.
  lemma Cut(b: Packet, p: nat, x: Packet, y: Packet)
    requires p <= |b| && b[p..] == x + y
    ensures p + |x| <= |b| && b[p..p + |x|] == x && b[p + |x|..] == y
  {
    assert b[p..p + |x|] == b[p..][..|x|] && b[p + |x|..] == b[p..][|x|..];
  }

  lemma ReadFirst(b: Packet, p: nat, qtype: nat, ttl: nat, row: seq<Byte>, more: seq<seq<Byte>>)
    requires qtype < 65536 && ttl <= U32_MAX && |row| < 65536
    requires forall i :: 0 <= i < |more| ==> |more[i]| == |row|
    requires p <= |b| && b[p..] == Answers(qtype, ttl, |row|, [row] + more)
    ensures p + 12 + |row| <= |b| && b[p + 12 + |row|..] == Answers(qtype, ttl, |row|, more)
    ensures ReadRecord(b, p) == Some((Record(qtype, 1, ttl, row), p + 12 + |row|))
  {
    hide Answer, Answers, ReadRecord;
    AnswersCons(qtype, ttl, |row|, row, more);
    Cut(b, p, Answer(qtype, ttl, |row|, row), Answers(qtype, ttl, |row|, more));
    ReadBack(b, p, qtype, ttl, row);
  }

  lemma {:induction false} ReadBackAll(b: Packet, p: nat, qtype: nat, ttl: nat, width: nat, rows: seq<seq<Byte>>)
    requires qtype < 65536 && ttl <= U32_MAX && width < 65536
    requires forall i :: 0 <= i < |rows| ==> |rows[i]| == width
    requires p <= |b| && b[p..] == Answers(qtype, ttl, width, rows)
    ensures ReadRecords(b, p, |rows|) == AsRecords(qtype, ttl, rows)
    decreases |rows|
  {
    if rows == [] {
      assert AsRecords(qtype, ttl, rows) == [];
    } else {
      hide Answer, Answers, ReadRecord, ReadRecords, AsRecords;
      ConsOf(rows);
      ReadFirst(b, p, qtype, ttl, rows[0], rows[1..]);
      ReadBackAll(b, p + 12 + width, qtype, ttl, width, rows[1..]);
      ReadRecordsCons(b, p, |rows|, Record(qtype, 1, ttl, rows[0]), p + 12 + width);
      AsRecordsCons(qtype, ttl, rows);
    }
  }

  lemma ConsOf<T>(s: seq<T>)
    requires s != []
    ensures [s[0]] + s[1..] == s
  {
  }

  lemma {:induction false} AllMatch(rs: seq<Record>, qtype: nat, width: nat)
    requires forall i :: 0 <= i < |rs| ==> Matches(rs[i], qtype, width)
    ensures Matching(rs, qtype, width) == rs
  {
    if rs != [] { AllMatch(rs[1..], qtype, width); }
  }

  // A query that ends right after its one uncompressed question.
  predicate QuestionOnly(request: Packet) {
    |request| >= HEADER + 5 && U16(request, 4) == 1 && SkipName(request, HEADER) == Some(|request| - 4)
  }

  lemma ResponseSection(request: Packet, qtype: nat, p: Payload, ttl: nat)
    requires QuestionOnly(request) && qtype < 65536 && PayloadOk(p) && ttl <= U32_MAX && p.numRecords > 0
    ensures AnswerSection(CachedResponse(request, qtype, p, ttl)) == Some((|request|, p.numRecords))
  {
    var r := CachedResponse(request, qtype, p, ttl);
    var h := Head(request, p.numRecords);
    assert forall i :: 8 <= i < |request| ==> r[i] == h[i] == request[i];
    assert r[3] == h[3] == 0x80 && r[4] == h[4] == request[4] && r[5] == h[5] == request[5];
    assert r[6] == h[6] == p.numRecords / 256 && r[7] == h[7] == p.numRecords % 256;
    SkipNameLocal(request, r, HEADER);
    assert SkipQuestions(r, |request|, 0) == Some(|request|);
  }

  lemma AnswersReadBack(rs: seq<Record>, qtype: nat, ttl: nat, rows: seq<seq<Byte>>)
    requires rs == AsRecords(qtype, ttl, rows) && 1 <= |rows| <= MAX_RECORDS && ttl <= U32_MAX
    requires forall i :: 0 <= i < |rows| ==> |rows[i]| == Width(qtype)
    ensures FirstEight(Matching(rs, qtype, Width(qtype))) == rs && MinTtl(rs) == ttl && Rdatas(rs) == rows
  {
    AllMatch(rs, qtype, Width(qtype));
    assert MinTtl(rs) <= rs[0].ttl;
  }

  // The walk over a response built from a payload collects its records.
  lemma ResponseCollected(request: Packet, qtype: nat, p: Payload, ttl: nat)
    requires QuestionOnly(request) && (qtype == 1 || qtype == 28) && ttl <= U32_MAX
    requires PayloadOk(p) && 1 <= p.numRecords <= MAX_RECORDS && p.recordBytes == Width(qtype)
    ensures var rs := Collected(CachedResponse(request, qtype, p, ttl), qtype);
      rs == AsRecords(qtype, ttl, Rows(p)) && MinTtl(rs) == ttl && Rdatas(rs) == Rows(p)
  {
    hide Answer, Answers, ReadRecord, ReadRecords, SkipName, SkipQuestions, AnswerSection, U16, Head, MinTtl, Matching, FirstEight, Rdatas, AsRecords, Rows, Width;
    var rows := Rows(p);
    ResponseSection(request, qtype, p, ttl);
    ReadBackAll(CachedResponse(request, qtype, p, ttl), |request|, qtype, ttl, p.recordBytes, rows);
    AnswersReadBack(AsRecords(qtype, ttl, rows), qtype, ttl, rows);
  }

  // Reading back a response built from the answer cache gives what was cached:
  // same count, width, TTL and bytes.
  lemma CachedAnswerRoundTrip(request: Packet, qtype: nat, p: Payload, ttl: nat)
    requires QuestionOnly(request) && (qtype == 1 || qtype == 28)
    requires PayloadOk(p) && 1 <= p.numRecords <= MAX_RECORDS && p.recordBytes == Width(qtype)
    requires 0 < ttl < U32_MAX
    ensures Cacheable(CachedResponse(request, qtype, p, ttl), qtype) == Some((Payload(Rows(p), p.numRecords, p.recordBytes), ttl))
  {
    hide Collected, CachedResponse, MinTtl, Rdatas, AsRecords, Rows, QuestionOnly;
    ResponseCollected(request, qtype, p, ttl);
  }

  // A query for the root name with type A and nothing behind the question.
  const ROOT_QUERY: Packet := [0, 1, 1, 0, 0, 1, 0, 0, 0, 0, 0, 0, 0, 0, 1, 0, 1]

  lemma RootQuery()
    ensures QuestionOnly(ROOT_QUERY) && Asks(ROOT_QUERY, [], 1, HEADER)
  {
  }

  // A reply with one matching record of TTL 0 is refused after its data has been
  // copied into the first row.
  lemma ZeroTtlWritesARow()
    ensures var reply := CachedResponse(ROOT_QUERY, 1, SINKHOLE, 0);
      Cacheable(reply, 1) == None && Collected(reply, 1) == [Record(1, 1, 0, [0, 0, 0, 0])]
  {
    hide Collected, CachedResponse, MinTtl, QuestionOnly;
    RootQuery();
    ResponseCollected(ROOT_QUERY, 1, SINKHOLE, 0);
    assert SINKHOLE.records[0][..4] == [0, 0, 0, 0];
    assert AsRecords(1, 0, Rows(SINKHOLE)) == [Record(1, 1, 0, [0, 0, 0, 0])];
  }

  // In particular for every query parse_query accepts that carries nothing after
  // its question and whose labels are shorter than 192 bytes.
  lemma AskedQueryRoundTrip(request: Packet, ls: seq<Label>, qtype: nat, e: nat, p: Payload, ttl: nat)
    requires Asks(request, ls, qtype, e) && |request| == e + 5 && U16(request, 4) == 1
    requires forall j :: 0 <= j < |ls| ==> |ls[j]| < 192
    requires (qtype == 1 || qtype == 28) && PayloadOk(p) && 1 <= p.numRecords <= MAX_RECORDS
    requires p.recordBytes == Width(qtype) && 0 < ttl < U32_MAX
    ensures Cacheable(CachedResponse(request, qtype, p, ttl), qtype) == Some((Payload(Rows(p), p.numRecords, p.recordBytes), ttl))
  {
    assert ls[..0] == [];
    SkipsSpelledName(request, ls, HEADER, e, 0);
    CachedAnswerRoundTrip(request, qtype, p, ttl);
  }
}
