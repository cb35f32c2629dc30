/** The SOCKS5 frames of docks, as RFC 1928 and RFC 1929 lay them out, and the reply as a whole. */
module Socks {
  import opened Wire

  const VERSION: byte := 5
  const AUTH_VERSION: byte := 1
  const NO_AUTHENTICATION: byte := 0
  const USERNAME_PASSWORD: byte := 2
  const NO_ACCEPTABLE_METHODS: byte := 0xFF
  const CONNECT: byte := 1
  const SUCCEEDED: byte := 0
  const COMMAND_NOT_SUPPORTED: byte := 7
  const ATYPE_IPV4: byte := 1
  const ATYPE_DOMAIN: byte := 3
  const ATYPE_IPV6: byte := 4

  /** An address as it is stored: raw bytes, or a domain name. */
  datatype Address = V4(bytes: Bytes) | V6(bytes: Bytes) | Domain(name: Bytes)

  predicate WellSized(a: Address)
  {
    match a
    case V4(b) => |b| == 4
    case V6(b) => |b| == 16
    case Domain(n) => |n| <= 255
  }

  /** A host as `strndup` keeps it. */
  function Stored(a: Address): Address
  {
    if a.Domain? then Domain(CStr(a.name)) else a
  }

  /** A host without zero bytes is kept as it is. */
  lemma StoredWhole(a: Address)
    ensures Stored(a) == a <==> a.Domain? ==> 0 !in a.name
  {
    if a.Domain? {
      CStrOf(a.name);
    }
  }

  /** Address type and address on the wire. */
  function Wired(a: Address): Bytes
    requires WellSized(a)
  {
    match a
    case V4(b) => [ATYPE_IPV4] + b
    case V6(b) => [ATYPE_IPV6] + b
    case Domain(n) => [ATYPE_DOMAIN, |n|] + n
  }

  /** Section 3 of RFC 1928: the methods a client offers. */
  function MethodsFrame(username: Bytes): Bytes
  {
    if username == [] then [VERSION, 1, NO_AUTHENTICATION] else [VERSION, 2, NO_AUTHENTICATION, USERNAME_PASSWORD]
  }

  /** Section 2 of RFC 1929. */
  function AuthFrame(username: Bytes, password: Bytes): Bytes
    requires |username| <= 127 && |password| <= 127
  {
    [AUTH_VERSION, |username|] + username + [|password|] + password
  }

  /** Section 4 of RFC 1928: a request to connect to a host by name. */
  function ConnectFrame(host: Bytes, port: nat): Bytes
    requires |host| <= 127
  {
    [VERSION, CONNECT, 0] + Wired(Domain(host)) + Short(port)
  }

  /** Section 6 of RFC 1928: the reply to a request that was granted. */
  function ReplyFrame(bound: Address, port: nat): Bytes
    requires WellSized(bound)
  {
    [VERSION, SUCCEEDED, 0] + Wired(bound) + Short(port)
  }

  /** What is sent of a string: its length is kept to one byte, and only that many bytes follow. */
  function Sent(s: Bytes): (t: Bytes)
    ensures t <= s && (t == s <==> |s| < 0x100)
  {
    s[..|s| % 0x100]
  }

  /** Of the strings whose length byte is not negative as a signed character, those of up to 127 bytes are sent whole;
      of the others a prefix of at most 127 bytes goes out. */
  lemma SentWhole(s: Bytes)
    requires |s| % 0x100 <= 127
    ensures Sent(s) == s <==> |s| <= 127
    ensures Sent(s) <= s && |Sent(s)| <= 127
  {
  }

  /** `DocketEvent_read_full` on an in-buffer. */
  method TakeFull(input: Bytes, n: nat) returns (r: int, data: Bytes, rest: Bytes)
    ensures r == if n == 0 || n > |input| then -1 else n
    ensures input == data + rest && |data| == (if r == -1 then 0 else n) && (r == -1 ==> rest == input)
  {
    if n == 0 || n > |input| {
      return -1, [], input;
    }
    return n, input[..n], input[n..];
  }

  /** What a reply stream says so far: undecided, a refusal (or a malformed reply), or a bound address and port, which
      take `used` bytes. */
  datatype Verdict = Undecided | Refused | Granted(host: Address, port: nat, used: nat)

  /** The address at the front of `s`, with its type byte, and its length. */
  datatype Front = Missing | Unknown | Found(host: Address, len: nat)

  function AddressFront(s: Bytes): (f: Front)
    ensures f.Found? ==> f.len <= |s|
  {
    if s == [] then Missing
    else if s[0] == ATYPE_IPV4 then if |s| < 5 then Missing else Found(V4(s[1..5]), 5)
    else if s[0] == ATYPE_IPV6 then if |s| < 17 then Missing else Found(V6(s[1..17]), 17)
    else if s[0] == ATYPE_DOMAIN then
      if |s| < 2 then Missing else
        var n: nat := s[1];
        if |s| < 2 + n then Missing else Found(Domain(s[2..2 + n]), 2 + n)
    else Unknown
  }

  /** The whole reply at once. */
  function ParseReply(s: Bytes): Verdict
  {
    if |s| < 3 then Undecided
    else if s[0] != VERSION || s[1] != SUCCEEDED || s[2] != 0 then Refused
    else match AddressFront(s[3..])
      case Missing => Undecided
      case Unknown => Refused
      case Found(host, len) =>
        if |s| < 3 + len + 2 then Undecided else Granted(host, U16(s, 3 + len), 3 + len + 2)
  }

  lemma AddressFrontStable(s: Bytes, more: Bytes)
    ensures AddressFront(s) != Missing ==> AddressFront(s + more) == AddressFront(s)
  {
    var t := s + more;
    assert t[..|s|] == s;
    if |s| >= 5 {
      assert t[1..5] == s[1..5];
    }
    if |s| >= 17 {
      assert t[1..17] == s[1..17];
    }
    if |s| >= 2 {
      var n: nat := s[1];
      if |s| >= 2 + n {
        assert t[2..2 + n] == s[2..2 + n];
      }
    }
  }

  /** Once there is a verdict, more bytes do not change it. */
  lemma VerdictStable(s: Bytes, more: Bytes)
    ensures ParseReply(s) != Undecided ==> ParseReply(s + more) == ParseReply(s)
  {
    if |s| >= 3 {
      assert (s + more)[3..] == s[3..] + more;
      AddressFrontStable(s[3..], more);
    }
  }

  /** Parsing a granted reply gives the bound address and port back and leaves what follows. */
  lemma ReplyRoundTrip(bound: Address, port: nat, rest: Bytes)
    requires WellSized(bound) && port < 0x1_0000
    ensures ParseReply(ReplyFrame(bound, port) + rest) == Granted(bound, port, |ReplyFrame(bound, port)|)
  {
    var frame := ReplyFrame(bound, port);
    var s := frame + rest;
    var w := Wired(bound);
    assert s[3..] == w + (Short(port) + rest);
    match bound
    case V4(b) => assert s[3..][1..5] == b;
    case V6(b) => assert s[3..][1..17] == b;
    case Domain(n) => assert s[3..][2..2 + |n|] == n;
    assert s[3 + |w|] == Short(port)[0] && s[3 + |w| + 1] == Short(port)[1];
  }

  /** Up to the last byte, a granted reply is undecided. */
  lemma ReplyPrefixUndecided(bound: Address, port: nat, k: nat)
    requires WellSized(bound) && k < |ReplyFrame(bound, port)|
    ensures ParseReply(ReplyFrame(bound, port)[..k]) == Undecided
  {
    var frame := ReplyFrame(bound, port);
    var s := frame[..k];
    if 3 <= k {
      assert s[0] == VERSION && s[1] == SUCCEEDED && s[2] == 0;
      assert frame[3..] == Wired(bound) + Short(port);
      assert s[3..] == frame[3..][..k - 3];
    }
  }

  /** `bound` and `port` make a reply. */
  predicate Replies(bound: Address, port: nat)
  {
    WellSized(bound) && port < 0x1_0000
  }

  /** What is taken for a granted reply is one: the frame of the bound address and port that come out. */
  lemma GrantedIs(s: Bytes)
    requires ParseReply(s).Granted?
    ensures var Granted(bound, port, used) := ParseReply(s);
            Replies(bound, port) && used <= |s| && s[..used] == ReplyFrame(bound, port)
  {
    var Granted(bound, port, used) := ParseReply(s);
    var t := s[3..];
    var len := AddressFront(t).len;
    FrontIs(t);
    assert s[..used] == s[..3] + t[..len] + s[3 + len..used];
    ShortBack(0, s[3 + len..used]);
  }

  lemma FrontIs(t: Bytes)
    requires AddressFront(t).Found?
    ensures var Found(host, len) := AddressFront(t); WellSized(host) && Wired(host) == t[..len]
  {
  }

  /** Bytes that complete an undecided reply. */
  function Completion(s: Bytes): Bytes
  {
    if |s| < 3 then [VERSION, SUCCEEDED, 0][|s|..] + [ATYPE_IPV4, 0, 0, 0, 0, 0, 0]
    else if |s| == 3 then [ATYPE_IPV4, 0, 0, 0, 0, 0, 0]
    else [0] + seq(17 + 256 + 2, i => 0)
  }

  lemma Completes(s: Bytes)
    requires ParseReply(s) == Undecided && (|s| < 3 ==> s <= [VERSION, SUCCEEDED, 0])
    ensures ParseReply(s + Completion(s)).Granted?
  {
    var t := s + Completion(s);
    if |s| < 3 {
      assert t == [VERSION, SUCCEEDED, 0] + [ATYPE_IPV4, 0, 0, 0, 0, 0, 0];
      assert t[3..] == [ATYPE_IPV4, 0, 0, 0, 0, 0, 0];
    } else {
      assert t[3..] == s[3..] + Completion(s);
    }
  }

  /** As long as the reply to a request is undecided, a granted reply may still come of it, except that fewer than
      three bytes are not looked at. */
  lemma UndecidedGoesOn(s: Bytes)
    requires ParseReply(s) == Undecided && (|s| < 3 ==> s <= [VERSION, SUCCEEDED, 0])
    ensures exists bound, port: nat :: Replies(bound, port) && s < ReplyFrame(bound, port)
  {
    hide ParseReply, ReplyFrame, Completion;
    var t := s + Completion(s);
    Completes(s);
    GrantedIs(t);
    var Granted(bound, port, used) := ParseReply(t);
    var frame := ReplyFrame(bound, port);
    if used <= |s| {
      assert t[..used] == s[..used];
      assert s == frame + s[used..];
      ReplyRoundTrip(bound, port, s[used..]);
    }
    assert s == t[..used][..|s|];
  }

  /** What the verdict means: the stream is taken for a granted reply exactly if it begins with one, and for a refusal
      exactly if it has three bytes and no granted reply can come of it. */
  lemma VerdictIs(s: Bytes)
    ensures ParseReply(s).Granted? <==> exists bound, port: nat :: Replies(bound, port) && ReplyFrame(bound, port) <= s
    ensures ParseReply(s).Refused? <==>
            |s| >= 3 && forall bound, port: nat :: Replies(bound, port) ==>
                          !(ReplyFrame(bound, port) <= s) && !(s <= ReplyFrame(bound, port))
  {
    hide ParseReply, ReplyFrame;
    if ParseReply(s).Granted? {
      GrantedIs(s);
    }
    forall bound, port: nat | Replies(bound, port)
      ensures ReplyFrame(bound, port) <= s ==> ParseReply(s).Granted?
      ensures s <= ReplyFrame(bound, port) ==> !ParseReply(s).Refused?
    {
      var frame := ReplyFrame(bound, port);
      ReplyRoundTrip(bound, port, []);
      assert frame + [] == frame;
      if frame <= s {
        assert frame + s[|frame|..] == s;
        ReplyRoundTrip(bound, port, s[|frame|..]);
      }
      if s <= frame {
        assert s + frame[|s|..] == frame;
        VerdictStable(s, frame[|s|..]);
      }
    }
    if ParseReply(s).Undecided? && |s| >= 3 {
      UndecidedGoesOn(s);
    }
    ShortReply(s);
  }

  /** The first three bytes of a granted reply are 5, 0 and 0, and any others are a refusal. */
  lemma HeaderDecides(s: Bytes)
    ensures ParseReply(s).Granted? ==> |s| >= 3 && s[..3] == [5, 0, 0]
    ensures |s| >= 3 && s[..3] != [5, 0, 0] ==> ParseReply(s) == Refused
  {
  }

  lemma ShortReply(s: Bytes)
    ensures |s| < 3 ==> ParseReply(s) == Undecided
  {
  }

  /** The frames byte by byte, as sections 3, 4 and 6 of RFC 1928 and section 2 of RFC 1929 have them. */
  lemma Layout(username: Bytes, password: Bytes, host: Bytes, port: nat)
    requires |username| <= 127 && |password| <= 127 && |host| <= 127
    ensures MethodsFrame(username) == if username == [] then [5, 1, 0] else [5, 2, 0, 2]
    ensures var s, u := AuthFrame(username, password), |username|;
            && |s| == 3 + u + |password| && s[..2] == [1, u] && s[2..2 + u] == username
            && s[2 + u] == |password| && s[3 + u..] == password
    ensures var s, n := ConnectFrame(host, port), |host|;
            && |s| == 7 + n && s[..5] == [5, 1, 0, 3, n] && s[5..5 + n] == host
            && s[5 + n..] == [port / 0x100 % 0x100, port % 0x100]
  {
  }

  /** The reply byte by byte. */
  lemma ReplyLayout(bound: Address, port: nat)
    requires WellSized(bound)
    ensures var s := ReplyFrame(bound, port);
            && s[..3] == [5, 0, 0] && s[|s| - 2..] == [port / 0x100 % 0x100, port % 0x100]
            && match bound
               case V4(b) => |s| == 10 && s[3] == 1 && s[4..8] == b
               case V6(b) => |s| == 22 && s[3] == 4 && s[4..20] == b
               case Domain(n) => |s| == 7 + |n| && s[3] == 3 && s[4] == |n| && s[5..5 + |n|] == n
  {
  }
}
