/** The messages of dns/c_dns.c: the query packer, the response builder and the response parser. */
module DnsMessage {
  import opened Wire
  import opened DnsNames

  const HEADER := 12
  const TYPE_A := 1
  const TYPE_CNAME := 5
  const TYPE_AAAA := 28
  const CLASS_IN := 1

  type Ipv4 = b: Bytes | |b| == 4 witness [0, 0, 0, 0]
  type Ipv6 = b: Bytes | |b| == 16 witness [0, 0, 0, 0, 0, 0, 0, 0, 0, 0, 0, 0, 0, 0, 0, 0]

  /** A question that gets an answer: its name, the offset of the name and its type. */
  datatype Kept = Kept(name: Text, offset: nat, qtype: nat)

  predicate Wanted(data: Bytes, at: nat)
    requires at + 3 < |data|
  {
    U16(data, at + 2) == CLASS_IN && (U16(data, at) == TYPE_A || U16(data, at) == TYPE_AAAA)
  }

  /** What is answered is class IN, type A or AAAA, as section 3.2 of RFC 1035 and RFC 3596 number them. */
  lemma WantedIs(data: Bytes, at: nat)
    requires at + 3 < |data|
    ensures Wanted(data, at) <==> data[at..at + 4] == [0, 1, 0, 1] || data[at..at + 4] == [0, 28, 0, 1]
    ensures IsAddress(data, at) <==> data[at..at + 4] == [0, 1, 0, 1]
    ensures IsAlias(data, at) <==> data[at..at + 4] == [0, 5, 0, 1]
  {
    var d := data[at..at + 4];
    assert d == [data[at], data[at + 1], data[at + 2], data[at + 3]];
  }

  /** Reading `n` questions from `pos` on stays inside the packet, up to the first error. */
  predicate QuestionsReadable(data: Bytes, n: nat, pos: nat)
  {
    n == 0 || pos > |data| ||
    (Readable(data, |data|, pos) &&
     var r := Decode(data, |data|, pos, None);
     var base := pos + Size(r);
     Size(r) == -1 || (0 <= base && base + 4 <= |data| && QuestionsReadable(data, n - 1, base + 4)))
  }

  /** The questions to answer among the next `n`, and where the section ends. */
  function Questions(data: Bytes, n: nat, pos: nat): Option<(seq<Kept>, nat)>
    requires QuestionsReadable(data, n, pos)
  {
    if n == 0 then Some(([], pos))
    else if pos > |data| then None
    else
      var r := Decode(data, |data|, pos, None);
      if Size(r) == -1 then None else
        var base := pos + Size(r);
        var kept := if Wanted(data, base) then [Kept(r.value.1, Resolve(data, |data|, pos), U16(data, base))] else [];
        Behind(kept, Questions(data, n - 1, base + 4))
  }

  function Behind(kept: seq<Kept>, r: Option<(seq<Kept>, nat)>): Option<(seq<Kept>, nat)>
  {
    if r == None then None else Some((kept + r.value.0, r.value.1))
  }

  lemma BehindTwice(a: seq<Kept>, b: seq<Kept>, r: Option<(seq<Kept>, nat)>)
    ensures Behind(a, Behind(b, r)) == Behind(a + b, r)
  {
    if r.Some? {
      assert a + (b + r.value.0) == (a + b) + r.value.0;
    }
  }

  lemma BehindNothing(r: Option<(seq<Kept>, nat)>)
    ensures Behind([], r) == r
  {
    if r.Some? {
      assert [] + r.value.0 == r.value.0;
    }
  }

  /** The address bytes the callbacks give for a question. */
  function Address(k: Kept, v4: Text -> Option<Ipv4>, v6: Text -> Option<Ipv6>): (r: Option<Bytes>)
    ensures r.Some? ==> |r.value| == AddressSize(k)
  {
    if k.qtype == TYPE_A then (match v4(k.name) case None => None case Some(a) => Some(a))
    else match v6(k.name) case None => None case Some(a) => Some(a)
  }

  function AddressSize(k: Kept): nat
  {
    if k.qtype == TYPE_A then 4 else 16
  }

  /** One answer record: a pointer to the question's name, type A, class IN, no lifetime, and the address. */
  function Answer(offset: nat, address: Bytes): (b: Bytes)
    ensures |b| == 12 + |address|
  {
    [192 + offset / 0x100 % 64, offset % 0x100] + Short(TYPE_A) + Short(CLASS_IN) + [0, 0, 0, 0] + Short(|address|)
    + address
  }

  /** The record byte by byte, as section 4.1.3 of RFC 1035 has it. An IPv6 address is sent as type A too. */
  lemma AnswerLayout(offset: nat, address: Bytes)
    requires offset < 0x4000 && |address| < 0x1_0000
    ensures var b := Answer(offset, address);
            && b[0] >= 192 && RfcTarget(b[0], b[1]) == offset
            && b[2..10] == [0, 1, 0, 1, 0, 0, 0, 0] && U16(b, 10) == |address| && b[12..] == address
  {
    var b := Answer(offset, address);
    ShortBack(|address|, [0, 0]);
    assert b[10] == Short(|address|)[0] && b[11] == Short(|address|)[1];
    assert b[2..10] == [0, 1, 0, 1, 0, 0, 0, 0];
  }

  /** All answers, where the callbacks know every name. */
  ghost function Answers(kept: seq<Kept>, v4: Text -> Option<Ipv4>, v6: Text -> Option<Ipv6>): Option<Bytes>
  {
    if kept == [] then Some([]) else
      var front := Answers(kept[..|kept| - 1], v4, v6);
      var k := kept[|kept| - 1];
      var a := Address(k, v4, v6);
      if front == None || a == None then None else Some(front.value + Answer(k.offset, a.value))
  }

  ghost function AnswersSize(kept: seq<Kept>): nat
  {
    if kept == [] then 0 else AnswersSize(kept[..|kept| - 1]) + 12 + AddressSize(kept[|kept| - 1])
  }

  lemma AnswersSizeOf(kept: seq<Kept>, k: Kept)
    ensures AnswersSize([]) == 0 && AnswersSize(kept + [k]) == AnswersSize(kept) + 12 + AddressSize(k)
  {
    assert (kept + [k])[..|kept|] == kept;
  }

  /** The header of the response: the query's with the response flag set and the number of answers. */
  function Respond(data: Bytes, answers: nat): (r: Bytes)
    requires HEADER <= |data| && data[2] < 128
    ensures |r| == |data|
  {
    data[..2] + [data[2] + 128] + data[3..6] + Short(answers) + data[8..]
  }

  /** Overwrite part of a buffer. */
  method Put(a: array<byte>, at: nat, bytes: Bytes)
    requires at + |bytes| <= a.Length
    modifies a
    ensures a[..] == old(a[..at]) + bytes + old(a[at + |bytes|..])
  {
    forall i | 0 <= i < |bytes| {
      a[at + i] := bytes[i];
    }
  }

  /** `c_dns_pack`: a query with one question. Two bits of the fourth header byte stay as they were in the buffer. */
  method Pack(domain: Bytes, buf: array<byte>, qtype: nat, pid: nat) returns (r: int)
    requires HEADER <= buf.Length ==> HEADER + |CStr(WireLabels(Split(domain)) + [0])| + 5 <= buf.Length
    modifies buf
    ensures buf.Length < HEADER ==> r == -1 && buf[..] == old(buf[..])
    ensures HEADER <= buf.Length ==>
              && r == HEADER + |CStr(WireLabels(Split(domain)) + [0])| + 5
              && buf[..r] == Query(CStr(WireLabels(Split(domain)) + [0]), qtype, pid, old(buf[3]))
              && buf[r..] == old(buf[r..])
              && IsQuery(buf[..r], CStr(WireLabels(Split(domain)) + [0]), qtype, pid)
  {
    hide CStr, Split, WireLabels, IsQuery;
    if buf.Length < HEADER {
      return -1;
    }
    ghost var before := buf[..];
    Put(buf, 0, QueryHeader(pid, buf[3]));
    var dns := DomainToDnsNameFormat(domain);
    var name := CStr(dns[..]);
    Put(buf, HEADER, name + [0]);
    Put(buf, HEADER + |name| + 1, Short(qtype) + Short(CLASS_IN));
    r := HEADER + |name| + 5;
    assert buf[..r] == Query(name, qtype, pid, before[3]);
    QueryLayout(name, qtype, pid, before[3]);
    assert buf[r..] == before[r..];
  }

  function QueryHeader(pid: nat, flags: byte): (b: Bytes)
    ensures |b| == HEADER
  {
    Short(pid) + [1, flags / 16 % 4 * 16] + Short(1) + [0, 0, 0, 0, 0, 0]
  }

  function Query(name: Bytes, qtype: nat, pid: nat, flags: byte): (b: Bytes)
    ensures |b| == HEADER + |name| + 5
  {
    QueryHeader(pid, flags) + (name + [0]) + (Short(qtype) + Short(CLASS_IN))
  }

  /** A query byte by byte, as section 4.1 of RFC 1035 has it: the id, a standard query with recursion desired, one
      question and no records, the name, the type and class IN. */
  predicate IsQuery(b: Bytes, name: Bytes, qtype: nat, pid: nat)
  {
    && |b| == HEADER + |name| + 5
    && U16(b, 0) == pid % 0x1_0000 && b[2] == 1 && b[3] in {0, 16, 32, 48}
    && b[4..12] == [0, 1, 0, 0, 0, 0, 0, 0] && b[12..12 + |name|] == name && b[12 + |name|] == 0
    && U16(b, 13 + |name|) == qtype % 0x1_0000 && b[15 + |name|..] == [0, 1]
  }

  lemma QueryLayout(name: Bytes, qtype: nat, pid: nat, flags: byte)
    ensures IsQuery(Query(name, qtype, pid, flags), name, qtype, pid)
  {
    var b := Query(name, qtype, pid, flags);
    var n := |name|;
    var tail := Short(qtype) + Short(CLASS_IN);
    assert b == QueryHeader(pid, flags) + name + [0] + tail;
    assert b[4..12] == QueryHeader(pid, flags)[4..12];
    assert b[12..12 + n] == name;
    assert b[13 + n..] == tail;
    assert b[13 + n] == tail[0] && b[14 + n] == tail[1];
    assert b[15 + n..] == tail[2..];
    ShortIs(qtype);
    ShortIs(pid);
  }

  lemma ShortIs(v: nat)
    ensures U16(Short(v), 0) == v % 0x1_0000
  {
    var high, low := v / 0x100 % 0x100, v % 0x100;
    assert v / 0x100 == 0x100 * (v / 0x1_0000) + high;
  }

  /** The question loop of `c_dns_gen_inet_response`. */
  method ScanQuestions(data: Bytes) returns (r: Option<(seq<Kept>, nat)>, extra: nat)
    requires HEADER <= |data| && QuestionsReadable(data, U16(data, 4), HEADER)
    ensures r == Questions(data, U16(data, 4), HEADER)
    ensures r.Some? ==> |r.value.0| <= U16(data, 4) && extra == AnswersSize(r.value.0)
    ensures r.Some? && U16(data, 4) > 0 ==> r.value.1 <= |data|
  {
    hide Readable, Decode, Resolve, AnswersSize;
    var count := U16(data, 4);
    var kept: seq<Kept>, pos: nat := [], HEADER;
    extra := 0;
    BehindNothing(Questions(data, count, pos));
    AnswersSizeOf(kept, Kept(None, 0, 0));
    for i := 0 to count
      invariant QuestionsReadable(data, count - i, pos)
      invariant Questions(data, count, HEADER) == Behind(kept, Questions(data, count - i, pos))
      invariant |kept| <= i && extra == AnswersSize(kept) && (i > 0 ==> pos <= |data|)
    {
      if pos > |data| {
        return None, 0;
      }
      var size, name, offset := GetName(data, pos, |data|);
      if size == -1 {
        return None, 0;
      }
      var base := pos + size;
      BehindTwice(kept, if Wanted(data, base) then [Kept(name, offset, U16(data, base))] else [],
                  Questions(data, count - i - 1, base + 4));
      if Wanted(data, base) {
        var k := Kept(name, offset, U16(data, base));
        AnswersSizeOf(kept, k);
        kept := kept + [k];
        extra := extra + 12 + AddressSize(k);
      } else {
        assert kept + [] == kept;
      }
      pos := base + 4;
    }
    assert kept + [] == kept;
    return Some((kept, pos)), extra;
  }

  /** What `c_dns_gen_inet_response` makes of a query; nothing on an error. */
  ghost predicate IsResponse(data: Bytes, kept: seq<Kept>, end: nat, answers: Bytes, resp: Bytes)
    requires HEADER <= |data| && end <= |data| && data[2] < 128
  {
    && |resp| == |data| + |answers|
    && resp[..end] == Respond(data, |kept|)[..end]
    && resp[end..end + |answers|] == answers
  }

  /** Up to `end` the response is the query, except that it is a response and says how many answers there are. */
  predicate Answering(data: Bytes, end: nat, answers: nat, resp: Bytes)
    requires HEADER <= |data| && data[2] < 128
  {
    && end <= |data| && end <= |resp|
    && (forall i :: 0 <= i < end && i !in {2, 6, 7} ==> resp[i] == data[i])
    && (end > 2 ==> resp[2] == data[2] + 128)
    && (end > 7 ==> U16(resp, 6) == answers)
  }

  lemma AnsweringIs(data: Bytes, kept: seq<Kept>, end: nat, answers: Bytes, resp: Bytes)
    requires HEADER <= |data| && end <= |data| && data[2] < 128 && |kept| < 0x1_0000
    requires IsResponse(data, kept, end, answers, resp)
    ensures Answering(data, end, |kept|, resp)
  {
    var r := Respond(data, |kept|);
    forall i | 0 <= i < end
      ensures resp[i] == r[i]
    {
      assert resp[..end][i] == r[..end][i];
    }
    ShortBack(|kept|, [0, 0]);
    assert r[6] == Short(|kept|)[0] && r[7] == Short(|kept|)[1];
  }

  /** `c_dns_gen_inet_response`. */
  method GenInetResponse(data: Bytes, v4: Text -> Option<Ipv4>, v6: Text -> Option<Ipv6>)
    returns (resp: Option<array<byte>>)
    requires HEADER <= |data| && data[2] < 128 ==> QuestionsReadable(data, U16(data, 4), HEADER)
    ensures resp.Some? ==> fresh(resp.value)
    ensures |data| < HEADER || data[2] >= 128 || U16(data, 4) == 0 ==> resp == None
    ensures HEADER <= |data| && data[2] < 128 && U16(data, 4) > 0 ==>
              match Questions(data, U16(data, 4), HEADER)
              case None => resp == None
              case Some((kept, end)) =>
                match Answers(kept, v4, v6)
                case None => resp == None
                case Some(answers) =>
                  && end <= |data| && resp.Some? && IsResponse(data, kept, end, answers, resp.value[..])
                  && Answering(data, end, |kept|, resp.value[..])
  {
    hide Answering, Questions, QuestionsReadable, Answers, AnswersSize, IsResponse, U16;
    if |data| < HEADER {
      return None;
    }
    if data[2] >= 128 {
      return None;
    }
    if U16(data, 4) == 0 {
      return None;
    }
    var questions, extra := ScanQuestions(data);
    if questions == None {
      return None;
    }
    var (kept, end) := questions.value;
    resp := MakeResponse(data, kept, end, extra, v4, v6);
    if resp.Some? {
      AnsweringIs(data, kept, end, Answers(kept, v4, v6).value, resp.value[..]);
    }
  }

  /** The second half of `c_dns_gen_inet_response`: a copy of the query with the new header, and the answers. */
  method MakeResponse(data: Bytes, kept: seq<Kept>, end: nat, extra: nat, v4: Text -> Option<Ipv4>,
                      v6: Text -> Option<Ipv6>)
    returns (resp: Option<array<byte>>)
    requires HEADER <= |data| && end <= |data| && data[2] < 128 && extra == AnswersSize(kept)
    ensures resp.Some? <==> Answers(kept, v4, v6).Some?
    ensures resp.Some? ==>
              fresh(resp.value) && IsResponse(data, kept, end, Answers(kept, v4, v6).value, resp.value[..])
  {
    hide Answers, AnswersSize, Respond;
    var rdata := CopyOf(Respond(data, |kept|), extra);
    ghost var front := rdata[..end];
    var ok := WriteAnswers(rdata, end, kept, v4, v6);
    SlicesOf(rdata, end, end + extra);
    resp := if ok then Some(rdata) else None;
  }

  lemma SlicesOf(a: array<byte>, x: nat, y: nat)
    requires x <= y <= a.Length
    ensures a[..][..x] == a[..x] && a[..][x..y] == a[x..y]
  {
  }

  /** A buffer that begins with these bytes and has room for more. */
  method CopyOf(bytes: Bytes, extra: nat) returns (a: array<byte>)
    ensures fresh(a) && a.Length == |bytes| + extra
    ensures forall k :: 0 <= k <= |bytes| ==> a[..k] == bytes[..k]
  {
    a := new byte[|bytes| + extra];
    Put(a, 0, bytes);
    assert a[..|bytes|] == bytes;
    forall k | 0 <= k <= |bytes|
      ensures a[..k] == bytes[..k]
    {
      assert a[..k] == a[..|bytes|][..k];
    }
  }

  /** The answer loop of `c_dns_gen_inet_response`. */
  method WriteAnswers(rdata: array<byte>, end: nat, kept: seq<Kept>, v4: Text -> Option<Ipv4>, v6: Text -> Option<Ipv6>)
    returns (ok: bool)
    requires end + AnswersSize(kept) <= rdata.Length
    modifies rdata
    ensures ok == Answers(kept, v4, v6).Some?
    ensures rdata[..end] == old(rdata[..end])
    ensures ok ==> rdata[end..end + AnswersSize(kept)] == Answers(kept, v4, v6).value
  {
    hide Answer, Address;
    var at := end;
    for i := 0 to |kept|
      invariant at == end + AnswersSize(kept[..i]) && Answers(kept[..i], v4, v6).Some?
      invariant rdata[..end] == old(rdata[..end]) && at <= rdata.Length
      invariant rdata[end..at] == Answers(kept[..i], v4, v6).value
    {
      var k := kept[i];
      assert kept[..i + 1][..i] == kept[..i];
      AnswersSizeMonotone(kept, i + 1);
      var address := Address(k, v4, v6);
      if address == None {
        AnswersNone(kept, i, v4, v6);
        return false;
      }
      Put(rdata, at, Answer(k.offset, address.value));
      at := at + 12 + |address.value|;
    }
    assert kept[..|kept|] == kept;
    return true;
  }

  lemma {:induction false} AnswersSizeMonotone(kept: seq<Kept>, i: nat)
    requires i <= |kept|
    ensures AnswersSize(kept[..i]) <= AnswersSize(kept)
  {
    if i < |kept| {
      AnswersSizeMonotone(kept[..|kept| - 1], i);
      assert kept[..|kept| - 1][..i] == kept[..i];
    } else {
      assert kept[..i] == kept;
    }
  }

  lemma {:induction false} AnswersNone(kept: seq<Kept>, i: nat, v4: Text -> Option<Ipv4>, v6: Text -> Option<Ipv6>)
    requires i < |kept| && Address(kept[i], v4, v6) == None
    ensures Answers(kept, v4, v6) == None
  {
    if i < |kept| - 1 {
      AnswersNone(kept[..|kept| - 1], i, v4, v6);
    }
  }

  /** Skipping `n` questions from `pos` on stays inside the packet. */
  predicate SkipReadable(data: Bytes, n: nat, pos: int)
  {
    n == 0 ||
    (0 <= pos && Readable(data, |data|, pos) &&
     var r := Decode(data, |data|, pos, None);
     Size(r) == -1 || SkipReadable(data, n - 1, pos + Size(r) + 4))
  }

  /** Where the section of `n` questions ends. */
  function Skip(data: Bytes, n: nat, pos: int): Option<int>
    requires SkipReadable(data, n, pos)
  {
    if n == 0 then Some(pos) else
      var r := Decode(data, |data|, pos, None);
      if Size(r) == -1 then None else Skip(data, n - 1, pos + Size(r) + 4)
  }

  /** `struct hostent`: the first name, the aliases and the addresses. */
  datatype Host = Host(name: Text, aliases: seq<Text>, addresses: seq<Bytes>)

  predicate IsAddress(data: Bytes, base: nat)
    requires base + 3 < |data|
  {
    U16(data, base) == TYPE_A && U16(data, base + 2) == CLASS_IN
  }

  predicate IsAlias(data: Bytes, base: nat)
    requires base + 3 < |data|
  {
    U16(data, base) == TYPE_CNAME && U16(data, base + 2) == CLASS_IN
  }

  /** Reading `n` records from `pos` on stays inside the packet, up to the first error. */
  predicate RecordsReadable(data: Bytes, n: nat, pos: int)
  {
    n == 0 ||
    (0 <= pos && Readable(data, |data|, pos) &&
     var r := Decode(data, |data|, pos, None);
     Size(r) == -1 ||
     (var base := pos + Size(r);
      0 <= base && base + 10 <= |data| &&
      var next := base + 10 + U16(data, base + 8);
      if IsAddress(data, base) then next <= |data| && RecordsReadable(data, n - 1, next)
      else if !IsAlias(data, base) then
        Readable(data, |data|, base + 10) &&
        (Size(Decode(data, |data|, base + 10, None)) == -1 || RecordsReadable(data, n - 1, next))
      else RecordsReadable(data, n - 1, next)))
  }

  /** The host entry after `n` more records. The first name wins; what is neither an address nor an alias record is
      taken for an alias. */
  function Records(data: Bytes, n: nat, pos: int, h: Host): Option<Host>
    requires RecordsReadable(data, n, pos)
  {
    if n == 0 then Some(h) else
      var r := Decode(data, |data|, pos, None);
      if Size(r) == -1 then None else
        var base := pos + Size(r);
        var next := base + 10 + U16(data, base + 8);
        var named := if h.name == None then h.(name := Left(r)) else h;
        if IsAddress(data, base) then
          Records(data, n - 1, next, named.(addresses := named.addresses + [data[base + 10..next]]))
        else if !IsAlias(data, base) then
          var alias := Decode(data, |data|, base + 10, None);
          if Size(alias) == -1 then None
          else Records(data, n - 1, next, named.(aliases := named.aliases + [Left(alias)]))
        else Records(data, n - 1, next, named)
  }

  /** The parser's tables have room for as many entries as the answer count gives when its two bytes are swapped. */
  function TableSize(data: Bytes): nat
    requires HEADER <= |data|
  {
    var low: nat, high: nat := data[7], data[6];
    low * 0x100 + high
  }

  /** Every record fits into the tables exactly if the low byte of the count is at least the high one. */
  lemma TableFits(data: Bytes)
    requires HEADER <= |data|
    ensures U16(data, 6) <= TableSize(data) <==> data[6] <= data[7]
  {
  }

  /** A response header with 256 answers, for which the tables have one entry. */
  lemma TableTooSmall()
    ensures var data := [0, 0, 128, 0, 0, 0, 1, 0, 0, 0, 0, 0];
            Answered(data) && U16(data, 6) == 256 && TableSize(data) == 1
  {
  }

  predicate Answered(data: Bytes)
    requires HEADER <= |data|
  {
    data[2] >= 128 && data[3] % 16 == 0
  }

  /** What the parser demands of its caller: a packet it can read without leaving it, and no more records than fit. */
  predicate Parseable(data: Bytes)
  {
    HEADER <= |data| &&
    (Answered(data) ==>
       SkipReadable(data, U16(data, 4), HEADER) &&
       var end := Skip(data, U16(data, 4), HEADER);
       end == None || U16(data, 6) == 0 ||
       (RecordsReadable(data, U16(data, 6), end.value) && U16(data, 6) <= TableSize(data)))
  }

  /** What `c_dns_parse_a` makes of a packet. */
  function Parsed(data: Bytes): Option<Host>
    requires Parseable(data)
  {
    if !Answered(data) then None else
      var end := Skip(data, U16(data, 4), HEADER);
      if end == None || U16(data, 6) == 0 then None
      else Records(data, U16(data, 6), end.value, Host(None, [], []))
  }

  /** `c_dns_parse_a`. */
  method ParseA(data: Bytes) returns (host: Option<Host>)
    requires Parseable(data)
    ensures host == Parsed(data)
    ensures host.Some? ==> data[2] >= 128 && data[3] % 16 == 0 && U16(data, 6) > 0
  {
    hide Readable, Decode;
    if data[2] < 128 || data[3] % 16 != 0 {
      return None;
    }
    var pos: int := HEADER;
    var count := U16(data, 4);
    for i := 0 to count
      invariant SkipReadable(data, count - i, pos) && Skip(data, count, HEADER) == Skip(data, count - i, pos)
    {
      var size, name, offset := GetName(data, pos, |data|);
      if size == -1 {
        return None;
      }
      pos := pos + size + 4;
    }
    if U16(data, 6) == 0 {
      return None;
    }
    host := ParseRecords(data, U16(data, 6), pos);
  }

  /** The record loop of `c_dns_parse_a`. */
  method ParseRecords(data: Bytes, count: nat, start: int) returns (host: Option<Host>)
    requires RecordsReadable(data, count, start)
    ensures host == Records(data, count, start, Host(None, [], []))
  {
    hide Readable, Decode, U16, IsAddress, IsAlias;
    var h, pos: int := Host(None, [], []), start;
    for i := 0 to count
      invariant RecordsReadable(data, count - i, pos)
      invariant Records(data, count, start, Host(None, [], [])) == Records(data, count - i, pos, h)
    {
      var size, name, offset := GetName(data, pos, |data|);
      if size == -1 {
        return None;
      }
      var base := pos + size;
      if h.name == None {
        h := h.(name := name);
      }
      var length := U16(data, base + 8);
      if !IsAddress(data, base) {
        if !IsAlias(data, base) {
          var r, alias, o := GetName(data, base + 10, |data|);
          if r == -1 {
            return None;
          }
          h := h.(aliases := h.aliases + [alias]);
        }
        pos := base + 10 + length;
        continue;
      }
      h := h.(addresses := h.addresses + [data[base + 10..base + 10 + length]]);
      pos := base + 10 + length;
    }
    return Some(h);
  }

  /** `c_dns_parse_first_ip`: the first four bytes of the first address, and the port in network order. */
  method ParseFirstIp(host: Option<Host>, port: nat) returns (r: Option<(Ipv4, Bytes)>)
    requires host.Some? && host.value.addresses != [] ==> 4 <= |host.value.addresses[0]|
    ensures r.Some? <==> host.Some? && host.value.addresses != []
    ensures r.Some? ==> r.value.0 <= host.value.addresses[0] && r.value.1 == Short(port)
  {
    if host == None {
      return None;
    }
    if host.value.addresses != [] {
      return Some((host.value.addresses[0][..4], Short(port)));
    }
    return None;
  }
}
