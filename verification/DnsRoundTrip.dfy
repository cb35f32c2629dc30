/** Query, response and parsed answer together: what is asked for is what comes back. Names are the C strings that the
    callbacks get and the host entry holds: their labels end at the first zero byte. */
module DnsRoundTrip {
  import opened Wire
  import opened DnsNames
  import opened DnsMessage

  /** `d` is, behind the header, the region `reg` and then anything. */
  ghost predicate Extends(reg: Bytes, d: Bytes)
  {
    HEADER <= |reg| <= |d| && forall i :: HEADER <= i < |reg| ==> reg[i] == d[i]
  }

  /** The region has at `pos` a question with a name as the RFC has it: it is not the root, pointers stay within the
      code's range, and its own labels are at an offset below 256. */
  ghost predicate QuestionOk(reg: Bytes, pos: nat)
  {
    && HEADER <= pos && RfcOk(reg, pos, pos) && Modest(reg, HEADER, pos, pos) && reg[pos] != 0
    && (pos < 256 || IsPointer(reg[pos]))
    && pos + RfcSize(reg, pos, pos) + 4 <= |reg|
  }

  /** From `pos` to its end the region has `n` such questions. */
  ghost predicate QuestionsOk(reg: Bytes, n: nat, pos: nat)
  {
    if n == 0 then pos == |reg|
    else QuestionOk(reg, pos) && QuestionsOk(reg, n - 1, pos + RfcSize(reg, pos, pos) + 4)
  }

  /** `k` is a question of the region: its name is the C string of the labels that the RFC reads at its offset. */
  ghost predicate Asked(reg: Bytes, k: Kept)
  {
    && HEADER <= k.offset < 256 && RfcOk(reg, k.offset, k.offset) && Modest(reg, HEADER, k.offset, k.offset)
    && reg[k.offset] != 0
    && k.name == TextOf(None, RfcLabels(reg, k.offset, k.offset))
  }

  /** The wanted questions as the RFC reads them. */
  ghost function Wants(reg: Bytes, n: nat, pos: nat): seq<Kept>
    requires QuestionsOk(reg, n, pos)
  {
    hide RfcOk, RfcSize, Modest, U16;
    if n == 0 then [] else
      var base := pos + RfcSize(reg, pos, pos);
      (if Wanted(reg, base) then [Want(reg, pos)] else []) + Wants(reg, n - 1, base + 4)
  }

  ghost function Want(reg: Bytes, pos: nat): (k: Kept)
    requires QuestionOk(reg, pos)
    ensures Asked(reg, k) && k.name == TextOf(None, RfcLabels(reg, pos, pos))
  {
    ResolveSameName(reg, |reg|, HEADER, pos);
    Kept(TextOf(None, RfcLabels(reg, pos, pos)), Resolve(reg, |reg|, pos), U16(reg, pos + RfcSize(reg, pos, pos)))
  }

  lemma NameOf(reg: Bytes, d: Bytes, pos: nat)
    requires HEADER <= pos && RfcOk(reg, pos, pos) && Modest(reg, HEADER, pos, pos) && Extends(reg, d)
    ensures Readable(reg, |reg|, pos) && Readable(d, |d|, pos) && Resolve(d, |d|, pos) == Resolve(reg, |reg|, pos)
    ensures Decode(d, |d|, pos, None) == Some((RfcSize(reg, pos, pos), TextOf(None, RfcLabels(reg, pos, pos))))
  {
    NameAgrees(reg, d, HEADER, pos, pos);
    ResolveAgrees(reg, |reg|, d, |d|, HEADER, pos);
    DecodeIsText(d, |d|, HEADER, pos, pos, None);
  }

  /** The builder reads the questions as the RFC does, whatever follows them. */
  lemma {:induction false} QuestionsAre(reg: Bytes, d: Bytes, n: nat, pos: nat)
    requires Extends(reg, d) && QuestionsOk(reg, n, pos)
    ensures QuestionsReadable(d, n, pos) && Questions(d, n, pos) == Some((Wants(reg, n, pos), |reg|))
    decreases n
  {
    hide RfcOk, RfcSize, RfcLabels, Modest, Readable, Decode, Resolve, TextOf;
    if n > 0 {
      NameOf(reg, d, pos);
      QuestionsAre(reg, d, n - 1, pos + RfcSize(reg, pos, pos) + 4);
    }
  }

  /** And so does the parser, on the response. */
  lemma {:induction false} SkipIs(reg: Bytes, d: Bytes, n: nat, pos: nat)
    requires Extends(reg, d) && QuestionsOk(reg, n, pos)
    ensures SkipReadable(d, n, pos) && Skip(d, n, pos) == Some(|reg|)
    decreases n
  {
    hide RfcOk, RfcSize, RfcLabels, Modest, Readable, Decode, TextOf;
    if n > 0 {
      NameOf(reg, d, pos);
      SkipIs(reg, d, n - 1, pos + RfcSize(reg, pos, pos) + 4);
    }
  }

  lemma {:induction false} WantsAsked(reg: Bytes, n: nat, pos: nat)
    requires QuestionsOk(reg, n, pos)
    ensures |Wants(reg, n, pos)| <= n && forall k :: k in Wants(reg, n, pos) ==> Asked(reg, k)
    decreases n
  {
    hide RfcOk, RfcSize, RfcLabels, Modest, TextOf, Asked;
    if n > 0 {
      var base := pos + RfcSize(reg, pos, pos);
      var first := if Wanted(reg, base) then [Want(reg, pos)] else [];
      var rest := Wants(reg, n - 1, base + 4);
      WantsAsked(reg, n - 1, base + 4);
      assert Wants(reg, n, pos) == first + rest;
      forall k | k in first + rest
        ensures Asked(reg, k)
      {
        assert k in first || k in rest;
      }
    }
  }

  /** What is kept asks for an IPv4 or an IPv6 address: type 1 or 28. */
  lemma {:induction false} WantsAddresses(reg: Bytes, n: nat, pos: nat)
    requires QuestionsOk(reg, n, pos)
    ensures forall k :: k in Wants(reg, n, pos) ==> k.qtype in {1, 28}
    decreases n
  {
    hide RfcOk, RfcSize, RfcLabels, Modest, TextOf, Asked, U16;
    if n > 0 {
      var base := pos + RfcSize(reg, pos, pos);
      var first := if Wanted(reg, base) then [Want(reg, pos)] else [];
      var rest := Wants(reg, n - 1, base + 4);
      WantsAddresses(reg, n - 1, base + 4);
      assert Wants(reg, n, pos) == first + rest;
      forall k: Kept | k in first + rest
        ensures k.qtype in {1, 28}
      {
        assert k in first || k in rest;
      }
    }
  }

  /** The callback for the type of the question gives this address for its name. */
  ghost predicate Gives(k: Kept, address: Bytes, v4: Text -> Option<Ipv4>, v6: Text -> Option<Ipv6>)
  {
    if k.qtype == 1 then v4(k.name).Some? && v4(k.name).value == address
    else v6(k.name).Some? && v6(k.name).value == address
  }

  /** The callbacks know every name. */
  ghost predicate Known(kept: seq<Kept>, v4: Text -> Option<Ipv4>, v6: Text -> Option<Ipv6>)
  {
    forall k :: k in kept ==> if k.qtype == 1 then v4(k.name).Some? else v6(k.name).Some?
  }

  lemma {:induction false} AnswersKnown(kept: seq<Kept>, v4: Text -> Option<Ipv4>, v6: Text -> Option<Ipv6>)
    ensures Answers(kept, v4, v6).Some? <==> Known(kept, v4, v6)
  {
    hide Answer;
    if kept != [] {
      var front, k := kept[..|kept| - 1], kept[|kept| - 1];
      AnswersKnown(front, v4, v6);
      assert kept == front + [k];
    }
  }

  lemma AddressesGiven(kept: seq<Kept>, v4: Text -> Option<Ipv4>, v6: Text -> Option<Ipv6>)
    requires Known(kept, v4, v6)
    ensures forall i :: 0 <= i < |kept| ==> Gives(kept[i], Addresses(kept, v4, v6)[i], v4, v6)
  {
    forall i | 0 <= i < |kept|
      ensures Gives(kept[i], Addresses(kept, v4, v6)[i], v4, v6)
    {
      assert kept[i] in kept;
    }
  }

  /** An answer record names its question by a pointer; read back, it has the question's name and the address. */
  lemma AnswerIs(reg: Bytes, d: Bytes, at: nat, k: Kept, address: Bytes)
    requires Extends(reg, d) && Asked(reg, k) && |reg| <= at && |address| < 256
    requires at + 12 + |address| <= |d| && d[at..at + 12 + |address|] == Answer(k.offset, address)
    ensures Readable(d, |d|, at) && Decode(d, |d|, at, None) == Some((2, k.name))
    ensures IsAddress(d, at + 2) && U16(d, at + 10) == |address| && d[at + 12..at + 12 + |address|] == address
  {
    var a := d[at..at + 12 + |address|];
    assert a[0] == 192 && a[1] == k.offset && a[2..12] == [0, 1, 0, 1, 0, 0, 0, 0, 0, |address|] && a[12..] == address;
    assert forall i :: 0 <= i < 12 ==> d[at + i] == a[i];
    assert a[2] == a[2..12][0] && a[3] == a[2..12][1] && a[4] == a[2..12][2] && a[5] == a[2..12][3];
    assert a[10] == a[2..12][8] && a[11] == a[2..12][9];
    PointerName(reg, d, at, k);
  }

  lemma PointerName(reg: Bytes, d: Bytes, at: nat, k: Kept)
    requires Extends(reg, d) && Asked(reg, k) && |reg| <= at && at + 1 < |d| && d[at] == 192 && d[at + 1] == k.offset
    ensures Readable(d, |d|, at) && Decode(d, |d|, at, None) == Some((2, k.name))
  {
    NameAgrees(reg, d, HEADER, k.offset, k.offset);
    assert IsPointer(d[at]) && RfcTarget(d[at], d[at + 1]) == k.offset;
    assert RfcOk(d, at, at) && Modest(d, HEADER, at, at);
    DecodeIsText(d, |d|, HEADER, at, at, None);
  }

  /** The address for each question, in order. */
  ghost function Addresses(kept: seq<Kept>, v4: Text -> Option<Ipv4>, v6: Text -> Option<Ipv6>): (r: seq<Bytes>)
    ensures |r| == |kept|
  {
    seq(|kept|, i requires 0 <= i < |kept| => Address(kept[i], v4, v6).GetOr([]))
  }

  /** Where the answer to question `i` is among all the answers. */
  lemma {:induction false} AnswerSlice(kept: seq<Kept>, v4: Text -> Option<Ipv4>, v6: Text -> Option<Ipv6>, i: nat)
    requires i < |kept| && Answers(kept, v4, v6).Some?
    ensures var all := Answers(kept, v4, v6).value;
            var a := Address(kept[i], v4, v6);
            var at := AnswersSize(kept[..i]);
            && a.Some? && |all| == AnswersSize(kept) && at + 12 + |a.value| <= |all|
            && all[at..at + 12 + |a.value|] == Answer(kept[i].offset, a.value)
            && AnswersSize(kept[..i + 1]) == at + 12 + |a.value|
    decreases |kept|
  {
    hide Answer, Address;
    var front, last := kept[..|kept| - 1], kept[|kept| - 1];
    assert kept[..i + 1][..i] == kept[..i];
    AnswersLength(front, v4, v6);
    var all, before := Answers(kept, v4, v6).value, Answers(front, v4, v6).value;
    var tail := Answer(last.offset, Address(last, v4, v6).value);
    assert all == before + tail;
    assert all[..|before|] == before && all[|before|..] == tail;
    if i < |kept| - 1 {
      AnswerSlice(front, v4, v6, i);
      assert front[..i] == kept[..i] && front[..i + 1] == kept[..i + 1];
      var at, size := AnswersSize(kept[..i]), 12 + |Address(kept[i], v4, v6).value|;
      assert all[at..at + size] == before[at..at + size];
    } else {
      assert kept[..i] == front && kept[..i + 1] == kept;
    }
  }

  lemma {:induction false} AnswersLength(kept: seq<Kept>, v4: Text -> Option<Ipv4>, v6: Text -> Option<Ipv6>)
    requires Answers(kept, v4, v6).Some?
    ensures |Answers(kept, v4, v6).value| == AnswersSize(kept)
  {
    if kept != [] {
      AnswersLength(kept[..|kept| - 1], v4, v6);
    }
  }

  lemma AskedHasName(reg: Bytes, k: Kept)
    requires Asked(reg, k)
    ensures k.name.Some?
  {
    LabelsOfNonRoot(reg, HEADER, k.offset);
    TextOfBehind(Some([]), RfcLabels(reg, k.offset, k.offset));
  }

  lemma SliceInside(d: Bytes, base: nat, all: Bytes, x: nat, n: nat)
    requires base + |all| <= |d| && d[base..base + |all|] == all && x + n <= |all|
    ensures d[base + x..base + x + n] == all[x..x + n]
  {
    forall i | x <= i < x + n
      ensures d[base + i] == all[i]
    {
      assert d[base..base + |all|][i] == d[base + i];
    }
  }

  lemma RecordsNone(d: Bytes, pos: nat, h: Host)
    ensures RecordsReadable(d, 0, pos) && Records(d, 0, pos, h) == Some(h)
  {
  }

  /** One address record, seen by the parser. */
  lemma RecordStep(d: Bytes, n: nat, at: nat, name: Text, address: Bytes, h: Host)
    requires 0 < n && at + 12 + |address| <= |d|
    requires Readable(d, |d|, at) && Decode(d, |d|, at, None) == Some((2, name))
    requires IsAddress(d, at + 2) && U16(d, at + 10) == |address| && d[at + 12..at + 12 + |address|] == address
    requires RecordsReadable(d, n - 1, at + 12 + |address|)
    ensures RecordsReadable(d, n, at)
    ensures Records(d, n, at, h) ==
            Records(d, n - 1, at + 12 + |address|,
                    Host(if h.name == None then name else h.name, h.aliases, h.addresses + [address]))
  {
    hide Readable, Decode, IsAddress, U16;
  }

  /** From answer `i` on, the parser collects the remaining addresses in order. */
  lemma {:induction false} RecordsAre(reg: Bytes, d: Bytes, kept: seq<Kept>, v4: Text -> Option<Ipv4>,
                                      v6: Text -> Option<Ipv6>, i: nat, h: Host)
    requires Extends(reg, d) && Answers(kept, v4, v6).Some? && forall k :: k in kept ==> Asked(reg, k)
    requires var all := Answers(kept, v4, v6).value;
             |reg| + |all| <= |d| && d[|reg|..|reg| + |all|] == all
    requires i <= |kept|
    ensures RecordsReadable(d, |kept| - i, |reg| + AnswersSize(kept[..i]))
    ensures Records(d, |kept| - i, |reg| + AnswersSize(kept[..i]), h) ==
            Some(Host(if h.name == None && i < |kept| then kept[i].name else h.name, h.aliases,
                      h.addresses + Addresses(kept, v4, v6)[i..]))
    decreases |kept| - i
  {
    hide Answers, AnswersSize, Answer, Address, Readable, Decode, Asked, Extends, Records, RecordsReadable, IsAddress;
    RecordsNone(d, |reg| + AnswersSize(kept[..i]), h);
    if i == |kept| {
      assert h.addresses + Addresses(kept, v4, v6)[i..] == h.addresses;
    } else {
      var all, at := Answers(kept, v4, v6).value, |reg| + AnswersSize(kept[..i]);
      AnswerSlice(kept, v4, v6, i);
      var k, a := kept[i], Address(kept[i], v4, v6).value;
      SliceInside(d, |reg|, all, AnswersSize(kept[..i]), 12 + |a|);
      AnswerIs(reg, d, at, k, a);
      AskedHasName(reg, k);
      var h' := Host(if h.name == None then k.name else h.name, h.aliases, h.addresses + [a]);
      RecordsAre(reg, d, kept, v4, v6, i + 1, h');
      RecordStep(d, |kept| - i, at, k.name, a, h);
      assert h'.addresses + Addresses(kept, v4, v6)[i + 1..] == h.addresses + Addresses(kept, v4, v6)[i..];
    }
  }

  /** A query without an error code whose question section is `reg`, up to what may follow it. */
  ghost predicate GoodQuery(reg: Bytes, data: Bytes)
  {
    && HEADER <= |reg| <= |data| && reg == data[..|reg|]
    && data[2] < 128 && data[3] % 16 == 0
    && U16(data, 4) > 0 && QuestionsOk(reg, U16(data, 4), HEADER)
  }

  /** End to end: parsing the response to a good query gives exactly the callbacks' addresses for the wanted questions,
      in order, and the first of their names. The only further condition is that the parser's tables have room. */
  lemma RoundTrip(reg: Bytes, data: Bytes, v4: Text -> Option<Ipv4>, v6: Text -> Option<Ipv6>, resp: Bytes)
    requires GoodQuery(reg, data)
    requires var kept := Wants(reg, U16(data, 4), HEADER);
             && kept != [] && |kept| / 0x100 <= |kept| % 0x100 && Answers(kept, v4, v6).Some?
             && IsResponse(data, kept, |reg|, Answers(kept, v4, v6).value, resp)
    ensures QuestionsReadable(data, U16(data, 4), HEADER)
    ensures Questions(data, U16(data, 4), HEADER) == Some((Wants(reg, U16(data, 4), HEADER), |reg|))
    ensures var kept := Wants(reg, U16(data, 4), HEADER);
            Parseable(resp) && Parsed(resp) == Some(Host(kept[0].name, [], Addresses(kept, v4, v6)))
  {
    hide QuestionsOk, Wants, Answers, AnswersSize, Addresses, Asked, RecordsReadable, Records, SkipReadable, Skip;
    var n := U16(data, 4);
    var kept := Wants(reg, n, HEADER);
    QuestionsAre(reg, data, n, HEADER);
    WantsAsked(reg, n, HEADER);
    ResponseHeader(reg, data, |kept|, resp);
    SkipIs(reg, resp, n, HEADER);
    AnswersLength(kept, v4, v6);
    NoAnswers(kept);
    RecordsAre(reg, resp, kept, v4, v6, 0, Host(None, [], []));
    assert [] + Addresses(kept, v4, v6)[0..] == Addresses(kept, v4, v6);
  }

  /** Those addresses are the callbacks', each from the one for the type of its question. */
  lemma AddressesAre(reg: Bytes, data: Bytes, v4: Text -> Option<Ipv4>, v6: Text -> Option<Ipv6>)
    requires GoodQuery(reg, data)
    ensures var kept := Wants(reg, U16(data, 4), HEADER);
            && (forall k :: k in kept ==> k.qtype in {1, 28})
            && (Answers(kept, v4, v6).Some? <==> Known(kept, v4, v6))
            && (Known(kept, v4, v6) ==>
                  forall i :: 0 <= i < |kept| ==> Gives(kept[i], Addresses(kept, v4, v6)[i], v4, v6))
  {
    hide QuestionsOk, Wants, Answers, Addresses, Known, Gives, U16;
    var kept := Wants(reg, U16(data, 4), HEADER);
    WantsAddresses(reg, U16(data, 4), HEADER);
    AnswersKnown(kept, v4, v6);
    if Known(kept, v4, v6) {
      AddressesGiven(kept, v4, v6);
    }
  }

  lemma NoAnswers(kept: seq<Kept>)
    ensures AnswersSize(kept[..0]) == 0
  {
  }

  lemma ResponseHeader(reg: Bytes, data: Bytes, answers: nat, resp: Bytes)
    requires HEADER <= |reg| <= |data| && reg == data[..|reg|] && data[2] < 128 && data[3] % 16 == 0
    requires answers < 0x1_0000 && |reg| <= |resp| && resp[..|reg|] == Respond(data, answers)[..|reg|]
    ensures Extends(reg, resp) && Answered(resp)
    ensures U16(resp, 4) == U16(data, 4) && U16(resp, 6) == answers
    ensures resp[6] == answers / 0x100 && resp[7] == answers % 0x100
  {
    var r := Respond(data, answers);
    assert forall i :: 0 <= i < |reg| ==> resp[i] == resp[..|reg|][i] == r[i];
    assert r[2] == data[2] + 128 && r[3] == data[3] && r[4] == data[4] && r[5] == data[5];
    assert r[6] == Short(answers)[0] && r[7] == Short(answers)[1];
    assert forall i :: 8 <= i < |reg| ==> r[i] == data[i] == reg[i];
  }

  /** When no name is compressed there are so few questions that the parser's tables always have room. */
  lemma {:induction false} UncompressedFits(reg: Bytes, n: nat, pos: nat)
    requires QuestionsOk(reg, n, pos) && Uncompressed(reg, n, pos)
    ensures n == 0 || n + pos <= 256
    ensures |Wants(reg, n, pos)| <= n
    decreases n
  {
    if n > 0 {
      UncompressedFits(reg, n - 1, pos + RfcSize(reg, pos, pos) + 4);
    }
  }

  ghost predicate Uncompressed(reg: Bytes, n: nat, pos: nat)
    requires QuestionsOk(reg, n, pos)
  {
    n == 0 || (!IsPointer(reg[pos]) && Uncompressed(reg, n - 1, pos + RfcSize(reg, pos, pos) + 4))
  }

  /** When every question asks for an address, every question is answered, in order. */
  lemma {:induction false} AllWanted(reg: Bytes, n: nat, pos: nat)
    requires QuestionsOk(reg, n, pos) && AllAddresses(reg, n, pos)
    ensures |Wants(reg, n, pos)| == n
    ensures n > 0 ==> Wants(reg, n, pos)[0].name == TextOf(None, RfcLabels(reg, pos, pos))
    decreases n
  {
    hide RfcOk, RfcSize, RfcLabels, Modest, U16, TextOf;
    if n > 0 {
      AllWanted(reg, n - 1, pos + RfcSize(reg, pos, pos) + 4);
    }
  }

  ghost predicate AllAddresses(reg: Bytes, n: nat, pos: nat)
    requires QuestionsOk(reg, n, pos)
  {
    n == 0 || (Wanted(reg, pos + RfcSize(reg, pos, pos)) &&
               AllAddresses(reg, n - 1, pos + RfcSize(reg, pos, pos) + 4))
  }

  /** `q` is a query with the one question for the domain. */
  ghost predicate AsksFor(q: Bytes, domain: Bytes)
  {
    GoodQuery(q, q) && U16(q, 4) == 1 && Wants(q, 1, HEADER) == [Kept(Some(domain), HEADER, TYPE_A)]
  }

  lemma PackedName(domain: Bytes, q: Bytes)
    requires Wellformed(domain) && HEADER + |domain| + 2 <= |q|
    requires q[HEADER..HEADER + |domain| + 2] == WireLabels(Split(domain)) + [0]
    ensures RfcOk(q, HEADER, HEADER) && Modest(q, HEADER, HEADER, HEADER) && RfcSize(q, HEADER, HEADER) == |domain| + 2
    ensures TextOf(None, RfcLabels(q, HEADER, HEADER)) == Some(domain)
  {
    hide Split, WireLabels, RfcOk, Modest, RfcSize, RfcLabels, TextOf;
    var name := WireLabels(Split(domain));
    SplitBack(domain);
    LabelEnds(q, HEADER, name);
    WireIsName(q, HEADER, HEADER, HEADER, Split(domain));
  }

  lemma LabelEnds(q: Bytes, at: nat, name: Bytes)
    requires at + |name| + 1 <= |q| && q[at..at + |name| + 1] == name + [0]
    ensures q[at..at + |name|] == name && q[at + |name|] == 0
  {
    var all := q[at..at + |name| + 1];
    assert all[..|name|] == name && all[|name|] == 0;
  }

  /** A name of three or more bytes in place begins with a label. */
  lemma BeginsWithLabel(q: Bytes, at: nat)
    requires RfcOk(q, at, at) && RfcSize(q, at, at) > 2
    ensures q[at] != 0 && !IsPointer(q[at]) && (Readable(q, |q|, at) ==> Resolve(q, |q|, at) == at)
  {
  }

  /** The bytes of a packed query. */
  lemma QueryBytes(name: Bytes, pid: nat, flags: byte)
    ensures var q := Query(name, TYPE_A, pid, flags);
            var base := HEADER + |name| + 1;
            && q[HEADER..base] == name + [0]
            && q[2] == 1 && q[3] % 16 == 0 && U16(q, 4) == 1
            && U16(q, base) == TYPE_A && U16(q, base + 2) == CLASS_IN
  {
    var q := Query(name, TYPE_A, pid, flags);
    var h := QueryHeader(pid, flags);
    var base := HEADER + |name| + 1;
    assert q[2] == h[2] && q[3] == h[3] && q[4] == h[4] && q[5] == h[5];
    assert h[3] == flags / 16 % 4 * 16;
    var tail := Short(TYPE_A) + Short(CLASS_IN);
    assert q[base] == tail[0] && q[base + 1] == tail[1] && q[base + 2] == tail[2] && q[base + 3] == tail[3];
  }

  /** A packed query for a well-formed name is a good query with that one question. */
  lemma PackedIsGood(domain: Bytes, pid: nat, flags: byte)
    requires Wellformed(domain)
    ensures var q := Query(CStr(WireLabels(Split(domain)) + [0]), TYPE_A, pid, flags);
            AsksFor(q, domain) && Uncompressed(q, 1, HEADER)
  {
    hide Split, WireLabels, RfcOk, Modest, RfcSize, RfcLabels, TextOf, Readable, Resolve, Query, U16, CStr;
    var name := WireLabels(Split(domain));
    SplitBack(domain);
    WireHasNoZero(Split(domain));
    CStrUpTo(name, []);
    assert name + [0] + [] == name + [0];
    QueryBytes(name, pid, flags);
    var q := Query(name, TYPE_A, pid, flags);
    PackedName(domain, q);
    NonEmpty(domain);
    BeginsWithLabel(q, HEADER);
    ResolveSameName(q, |q|, HEADER, HEADER);
    OneQuestion(q, |domain| + 2);
  }

  lemma NonEmpty(domain: Bytes)
    requires Wellformed(domain)
    ensures domain != []
  {
    assert domain == [] ==> [] in Split(domain);
  }

  lemma OneQuestion(q: Bytes, size: nat)
    requires HEADER + size + 4 == |q| && RfcOk(q, HEADER, HEADER) && Modest(q, HEADER, HEADER, HEADER)
    requires RfcSize(q, HEADER, HEADER) == size && q[HEADER] != 0 && !IsPointer(q[HEADER])
    requires Wanted(q, HEADER + size)
    ensures QuestionsOk(q, 1, HEADER) && Wants(q, 1, HEADER) == [Want(q, HEADER)] && Uncompressed(q, 1, HEADER)
  {
    hide RfcOk, Modest, RfcSize, RfcLabels, TextOf, Wanted;
    assert QuestionsOk(q, 0, |q|);
  }

  /** For a query of address questions with uncompressed names nothing else is needed: there are as many addresses as
      questions, and the name is the first question's. */
  lemma RoundTripOfAddresses(reg: Bytes, data: Bytes, v4: Text -> Option<Ipv4>, v6: Text -> Option<Ipv6>, resp: Bytes)
    requires GoodQuery(reg, data)
    requires var n := U16(data, 4); Uncompressed(reg, n, HEADER) && AllAddresses(reg, n, HEADER)
    requires var kept := Wants(reg, U16(data, 4), HEADER);
             Answers(kept, v4, v6).Some? && IsResponse(data, kept, |reg|, Answers(kept, v4, v6).value, resp)
    ensures RfcOk(reg, HEADER, HEADER) && Parseable(resp) && Parsed(resp).Some?
    ensures var h := Parsed(resp).value;
            && |h.addresses| == U16(data, 4) && h.aliases == []
            && h.addresses == Addresses(Wants(reg, U16(data, 4), HEADER), v4, v6)
            && h.name == TextOf(None, RfcLabels(reg, HEADER, HEADER))
  {
    hide RfcLabels, Answers, Parsed, Parseable, IsResponse, Modest;
    var n := U16(data, 4);
    UncompressedFits(reg, n, HEADER);
    AllWanted(reg, n, HEADER);
    RoundTrip(reg, data, v4, v6, resp);
  }

  lemma OneAnswer(k: Kept, v4: Text -> Option<Ipv4>, v6: Text -> Option<Ipv6>)
    ensures Answers([k], v4, v6) ==
            var a := Address(k, v4, v6); if a == None then None else Some(Answer(k.offset, a.value))
  {
    assert [k][..0] == [];
    assert Answers([], v4, v6) == Some([]);
    var a := Address(k, v4, v6);
    if a.Some? {
      assert [] + Answer(k.offset, a.value) == Answer(k.offset, a.value);
    }
  }

  lemma AddressAsked(q: Bytes, domain: Bytes, v4: Text -> Option<Ipv4>, v6: Text -> Option<Ipv6>)
    requires AsksFor(q, domain)
    ensures var kept := [Kept(Some(domain), HEADER, TYPE_A)];
            && Wants(q, U16(q, 4), HEADER) == kept
            && (Answers(kept, v4, v6).Some? <==> v4(Some(domain)).Some?)
            && (v4(Some(domain)).Some? ==> Address(kept[0], v4, v6) == Some(v4(Some(domain)).value))
  {
    hide QuestionsOk, Wants, Answers;
    OneAnswer(Kept(Some(domain), HEADER, TYPE_A), v4, v6);
  }

  lemma FirstOf(kept: seq<Kept>, v4: Text -> Option<Ipv4>, v6: Text -> Option<Ipv6>)
    requires kept != [] && Answers(kept, v4, v6).Some?
    ensures Address(kept[0], v4, v6) == Some(Addresses(kept, v4, v6)[0])
  {
    hide Answers, AnswersSize, Answer;
    AnswerSlice(kept, v4, v6, 0);
  }

  /** Responding to any good query, parsing the response and taking its first address gives the first four bytes that
      the callbacks have for the first wanted question; it fails if and only if they do not know one of the names. */
  method FirstAnswer(data: Bytes, ghost reg: Bytes, v4: Text -> Option<Ipv4>, v6: Text -> Option<Ipv6>, port: nat)
    returns (r: Option<(Ipv4, Bytes)>)
    requires GoodQuery(reg, data)
    requires var kept := Wants(reg, U16(data, 4), HEADER); kept != [] && |kept| / 0x100 <= |kept| % 0x100
    ensures var kept := Wants(reg, U16(data, 4), HEADER);
            && (r.Some? <==> Known(kept, v4, v6)) && kept[0].qtype in {1, 28}
            && (r.Some? && kept[0].qtype == 1 ==> v4(kept[0].name) == Some(r.value.0))
            && (r.Some? && kept[0].qtype == 28 ==> r.value.0 <= v6(kept[0].name).value)
            && (r.Some? ==> r.value.1 == Short(port))
  {
    hide QuestionsOk, Wants, Answers, IsResponse, Questions, QuestionsReadable, Parsed, Parseable, U16, Address;
    ghost var kept := Wants(reg, U16(data, 4), HEADER);
    QuestionsAre(reg, data, U16(data, 4), HEADER);
    AddressesAre(reg, data, v4, v6);
    assert kept[0] in kept;
    var resp := GenInetResponse(data, v4, v6);
    if resp == None {
      return None;
    }
    RoundTrip(reg, data, v4, v6, resp.value[..]);
    FirstOf(kept, v4, v6);
    var host := ParseA(resp.value[..]);
    r := ParseFirstIp(host, port);
    assert kept[0].qtype == 1 ==>
        var a := v4(kept[0].name).value; a == host.value.addresses[0] && r.value.0 == a[..4] == a;
  }

  /** The chain of the repository's own example, up to the address: pack a query, build the response, parse it, and take
      the first address. It is the one the callback gave for the name. */
  method Lookup(domain: Bytes, buf: array<byte>, pid: nat, v4: Text -> Option<Ipv4>, v6: Text -> Option<Ipv6>,
                port: nat)
    returns (r: Option<(Ipv4, Bytes)>)
    requires Wellformed(domain) && |domain| + 18 <= buf.Length
    modifies buf
    ensures r == if v4(Some(domain)) == None then None else Some((v4(Some(domain)).value, Short(port)))
  {
    hide Split, WireLabels, CStr, Query, Answers, U16, Address, Wants;
    SplitBack(domain);
    WireHasNoZero(Split(domain));
    CStrUpTo(WireLabels(Split(domain)), []);
    assert WireLabels(Split(domain)) + [0] + [] == WireLabels(Split(domain)) + [0];
    ghost var flags := buf[3];
    var n := Pack(domain, buf, TYPE_A, pid);
    var query := buf[..n];
    PackedIsGood(domain, pid, flags);
    AddressAsked(query, domain, v4, v6);
    r := FirstAnswer(query, query, v4, v6, port);
    assert v4(Some(domain)).Some? ==> v4(Some(domain)).value[..4] == v4(Some(domain)).value;
    assert r.Some? ==> r.value.0 == v4(Some(domain)).value[..4];
  }
}
