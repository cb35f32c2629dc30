/** What `c_dns_parse_a` makes of responses in general, also of servers that use names and alias records as they
    like. */
module DnsResponse {
  import opened Wire
  import opened DnsNames
  import opened DnsMessage
  import opened DnsRoundTrip

  /** A name that the code reads as RFC 1035 does. */
  ghost predicate Plain(data: Bytes, pos: nat)
  {
    RfcOk(data, pos, pos) && Below(data, pos, pos) && !Rooted(data, pos, pos, false)
  }

  /** The text of its labels, as C strings; nothing for the root. */
  ghost function Owner(data: Bytes, pos: nat): Text
    requires Plain(data, pos)
  {
    TextOf(None, RfcLabels(data, pos, pos))
  }

  /** Where the fixed part of a record begins, behind its name. */
  ghost function Base(data: Bytes, pos: nat): nat
    requires Plain(data, pos)
  {
    pos + RfcSize(data, pos, pos)
  }

  lemma PlainIsText(data: Bytes, pos: nat)
    requires Plain(data, pos)
    ensures Readable(data, |data|, pos)
    ensures Decode(data, |data|, pos, None) == Some((Base(data, pos) - pos, Owner(data, pos)))
  {
    hide Readable, Decode, TextOf, Rooted, RfcLabels;
    DecodeIsSpelled(data, |data|, pos, pos, None);
  }

  /** One record of section 4.1.3 of RFC 1035: an address, an alias, or any other one whose data begin with a name. */
  ghost predicate RecordOk(data: Bytes, pos: nat)
  {
    && Plain(data, pos) && Base(data, pos) + 10 <= |data|
    && (Bears(data, Base(data, pos)) ==> Plain(data, Base(data, pos) + 10))
    && Next(data, pos) <= |data|
  }

  /** The record is neither an address nor an alias of class IN; the parser takes its data for a name. */
  ghost predicate Bears(data: Bytes, base: nat)
    requires base + 10 <= |data|
  {
    data[base..base + 4] != [0, 1, 0, 1] && data[base..base + 4] != [0, 5, 0, 1]
  }

  ghost function Next(data: Bytes, pos: nat): nat
    requires Plain(data, pos) && Base(data, pos) + 10 <= |data|
  {
    Base(data, pos) + 10 + U16(data, Base(data, pos) + 8)
  }

  /** Where the record ends. */
  ghost function After(data: Bytes, pos: nat): nat
    requires RecordOk(data, pos)
  {
    Next(data, pos)
  }

  /** The data of an address record. */
  ghost function MoreAddresses(data: Bytes, pos: nat): seq<Bytes>
    requires RecordOk(data, pos)
  {
    var base := Base(data, pos);
    if data[base..base + 4] == [0, 1, 0, 1] then [data[base + 10..Next(data, pos)]] else []
  }

  /** The name in the data of a record of another kind. */
  ghost function MoreNames(data: Bytes, pos: nat): seq<Text>
    requires RecordOk(data, pos)
  {
    if Bears(data, Base(data, pos)) then [Owner(data, Base(data, pos) + 10)] else []
  }

  ghost function OwnerOf(data: Bytes, pos: nat): Text
    requires RecordOk(data, pos)
  {
    Owner(data, pos)
  }

  ghost predicate RecordsOk(data: Bytes, n: nat, pos: nat)
  {
    n == 0 || (RecordOk(data, pos) && RecordsOk(data, n - 1, After(data, pos)))
  }

  /** The data of the address records, in order. */
  ghost function Given(data: Bytes, n: nat, pos: nat): seq<Bytes>
    requires RecordsOk(data, n, pos)
  {
    if n == 0 then [] else MoreAddresses(data, pos) + Given(data, n - 1, After(data, pos))
  }

  /** The names in the data of the other records, in order. */
  ghost function Named(data: Bytes, n: nat, pos: nat): seq<Text>
    requires RecordsOk(data, n, pos)
  {
    if n == 0 then [] else MoreNames(data, pos) + Named(data, n - 1, After(data, pos))
  }

  /** The owner of the first record whose owner is not the root. */
  ghost function FirstOwner(data: Bytes, n: nat, pos: nat): Text
    requires RecordsOk(data, n, pos)
  {
    if n == 0 then None
    else if OwnerOf(data, pos).Some? then OwnerOf(data, pos)
    else FirstOwner(data, n - 1, After(data, pos))
  }

  /** One record, seen by the parser. */
  lemma RecordIs(data: Bytes, n: nat, pos: nat, h: Host, next: nat, h': Host)
    requires 0 < n && RecordsReadable(data, n - 1, next)
    requires RecordOk(data, pos) && next == After(data, pos) && h' == Grown(data, pos, h)
    ensures RecordsReadable(data, n, pos) && Records(data, n, pos, h) == Records(data, n - 1, next, h')
  {
    hide Readable, Decode, Plain, Base, Owner, U16, IsAddress, IsAlias;
    PlainIsText(data, pos);
    SizeInside(data, pos);
    WantedIs(data, Base(data, pos));
    var base := Base(data, pos);
    if Bears(data, base) {
      PlainIsText(data, base + 10);
      SizeInside(data, base + 10);
    }
    assert h.addresses + [] == h.addresses && h.aliases + [] == h.aliases;
  }

  /** The host entry with one more record. */
  ghost function Grown(data: Bytes, pos: nat, h: Host): Host
    requires RecordOk(data, pos)
  {
    Host(if h.name == None then OwnerOf(data, pos) else h.name,
         h.aliases + MoreNames(data, pos), h.addresses + MoreAddresses(data, pos))
  }

  lemma SizeInside(data: Bytes, pos: nat)
    requires Plain(data, pos)
    ensures pos < Base(data, pos)
  {
  }

  /** The parser collects exactly the addresses of the address records and the names in the data of the others, in
      order, and the first owner. */
  lemma {:induction false} RecordsGive(data: Bytes, n: nat, pos: nat, h: Host)
    requires RecordsOk(data, n, pos)
    ensures RecordsReadable(data, n, pos)
    ensures Records(data, n, pos, h) ==
            Some(Host(if h.name == None then FirstOwner(data, n, pos) else h.name, h.aliases + Named(data, n, pos),
                      h.addresses + Given(data, n, pos)))
    decreases n
  {
    hide RecordOk, After, OwnerOf, MoreNames, MoreAddresses, RecordsReadable, Records;
    if n == 0 {
      RecordsNone(data, pos, h);
      assert h.addresses + [] == h.addresses && h.aliases + [] == h.aliases;
    } else {
      var next, h' := After(data, pos), Grown(data, pos, h);
      RecordsGive(data, n - 1, next, h');
      RecordIs(data, n, pos, h, next, h');
      assert h'.addresses + Given(data, n - 1, next) == h.addresses + Given(data, n, pos);
      assert h'.aliases + Named(data, n - 1, next) == h.aliases + Named(data, n, pos);
    }
  }

  /** A response without an error: its question section is `data[..end]`, behind it are as many records as it says, and
      the parser's tables have room for them. */
  ghost predicate GoodResponse(data: Bytes, end: nat)
  {
    && HEADER <= end <= |data| && Answered(data)
    && QuestionsOk(data[..end], U16(data, 4), HEADER)
    && 0 < U16(data, 6) <= TableSize(data) && RecordsOk(data, U16(data, 6), end)
  }

  /** Every such response, whoever made it, is parsed to its addresses, the names in its other records, and its first
      owner. */
  lemma ResponseGives(data: Bytes, end: nat)
    requires GoodResponse(data, end)
    ensures Parseable(data)
    ensures Parsed(data) ==
            Some(Host(FirstOwner(data, U16(data, 6), end), Named(data, U16(data, 6), end),
                      Given(data, U16(data, 6), end)))
  {
    hide QuestionsOk, RecordsOk, RecordsReadable, Records, SkipReadable, Skip, FirstOwner, Given, Named, U16;
    SkipIs(data[..end], data, U16(data, 4), HEADER);
    RecordsGive(data, U16(data, 6), end, Host(None, [], []));
    assert [] + Given(data, U16(data, 6), end) == Given(data, U16(data, 6), end);
    assert [] + Named(data, U16(data, 6), end) == Named(data, U16(data, 6), end);
  }
}
