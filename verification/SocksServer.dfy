/** The server side of docks: the read callbacks of docks/method.c, docks/auth.c and docks/docks_connect.c and the
    choice of docks/negotication.c. The user table is a map, and connecting to the remote host is left to the caller. */
module SocksServer {
  import opened Wire
  import opened Socks

  /** The current read callback. */
  datatype Callback = OnReadMethods | OnReadMethodsInner | OnAuthRead | OnConnectRead | ReadAddress

  type Users = Option<map<Bytes, Bytes>>

  predicate NoUsers(users: Users)
  {
    users == None || |users.value| == 0
  }

  predicate Holds(users: Users, username: Bytes, password: Bytes)
  {
    users.Some? && username in users.value && users.value[username] == password
  }

  /** The method a server with these users picks from an offer. */
  function Chosen(users: Users, offer: Bytes): byte
  {
    if NoUsers(users) then NO_AUTHENTICATION
    else if USERNAME_PASSWORD in offer then USERNAME_PASSWORD
    else NO_ACCEPTABLE_METHODS
  }

  /** A complete username/password frame at the front of the input, with its length. */
  function Credentials(s: Bytes): Option<(Bytes, Bytes, nat)>
  {
    if |s| < 2 then None else
      var u: nat := s[1];
      if |s| < 3 + u then None else
        var p: nat := s[2 + u];
        if |s| < 3 + u + p then None else Some((CStr(s[2..2 + u]), CStr(s[3 + u..3 + u + p]), 3 + u + p))
  }

  class Server {
    const users: Users
    const replyData: array<byte>

    var input: Bytes
    var out: Bytes
    var callback: Callback
    var alive: bool
    var methodCount: nat
    var method_: byte
    var header: Bytes
    var remoteHost: Option<Address>
    var remotePort: nat
    var connecting: bool

    constructor (users: Users)
      ensures this.users == users && replyData.Length == 261 && fresh(replyData)
      ensures input == out == header == [] && callback == OnReadMethods && alive && !connecting
      ensures remoteHost == None
    {
      this.users := users;
      replyData := new byte[261];
      input, out, header, callback, alive := [], [], [], OnReadMethods, true;
      methodCount, method_, remoteHost, remotePort, connecting := 0, 0, None, 0, false;
    }

    /** `docks_negotication`. */
    method Negotiate(offer: Bytes) returns (m: byte)
      ensures m == Chosen(users, offer)
      ensures m == 0 <==> NoUsers(users)
      ensures m == 2 <==> !NoUsers(users) && 2 in offer
      ensures m == 0xFF <==> !NoUsers(users) && 2 !in offer
    {
      if users == None || |users.value| == 0 {
        return NO_AUTHENTICATION;
      }
      for i := 0 to |offer|
        invariant USERNAME_PASSWORD !in offer[..i]
      {
        if offer[i] == USERNAME_PASSWORD {
          return USERNAME_PASSWORD;
        }
      }
      assert offer[..|offer|] == offer;
      return NO_ACCEPTABLE_METHODS;
    }

    /** `docks_on_read_methods_inner`: an offer of no methods closes the connection. */
    method OnMethodsInner()
      requires alive && callback == OnReadMethodsInner && methodCount < 0x100
      modifies this
      ensures unchanged(`methodCount, `header, `remoteHost, `remotePort, `connecting)
      ensures |old(input)| < methodCount ==> unchanged(this)
      ensures |old(input)| >= methodCount && methodCount == 0 ==> !alive && out == old(out)
      ensures |old(input)| >= methodCount > 0 ==>
                var m := Chosen(users, old(input)[..methodCount]);
                && input == old(input)[methodCount..] && out == old(out) + [VERSION, m] && method_ == m
                && (alive <==> m != NO_ACCEPTABLE_METHODS)
                && (alive ==> callback == if m == NO_AUTHENTICATION then OnConnectRead else OnAuthRead)
    {
      if |input| < methodCount {
        return;
      }
      var r, offer;
      r, offer, input := TakeFull(input, methodCount);
      if r != methodCount {
        alive := false;
        return;
      }
      assert offer == old(input)[..methodCount];
      var m := Negotiate(offer);
      out := out + [VERSION, m];
      method_ := m;
      if m == NO_AUTHENTICATION {
        callback := OnConnectRead;
      } else if m == USERNAME_PASSWORD {
        callback := OnAuthRead;
      } else {
        alive := false;
      }
    }

    /** `docks_on_read_methods`. */
    method OnMethods()
      requires alive && callback == OnReadMethods
      modifies this
      ensures unchanged(`header, `remoteHost, `remotePort, `connecting)
      ensures |old(input)| < 2 ==> unchanged(this)
      ensures |old(input)| >= 2 && old(input)[0] != VERSION ==> !alive && out == old(out)
      ensures |old(input)| >= 2 && old(input)[0] == VERSION ==>
                var n: nat := old(input)[1];
                var rest := old(input)[2..];
                && (|rest| < n ==>
                      alive && callback == OnReadMethodsInner && methodCount == n && input == rest && out == old(out))
                && (n == 0 ==> !alive && out == old(out))
                && (|rest| >= n > 0 ==>
                      var m := Chosen(users, rest[..n]);
                      && input == rest[n..] && out == old(out) + [VERSION, m] && method_ == m
                      && (alive <==> m != NO_ACCEPTABLE_METHODS)
                      && (alive ==> callback == if m == NO_AUTHENTICATION then OnConnectRead else OnAuthRead))
    {
      if |input| < 2 {
        return;
      }
      var r, data;
      r, data, input := TakeFull(input, 2);
      if data[0] != VERSION {
        alive := false;
        return;
      }
      methodCount := data[1];
      callback := OnReadMethodsInner;
      assert input == old(input)[2..];
      OnMethodsInner();
    }

    /** `docks_on_auth_read`. Lengths are signed characters, and one of 128 or more is never complete. Where the input
        ends right behind the user name the source goes on to what its local array happens to hold, and consumes
        nothing. */
    method OnAuth()
      requires alive && callback == OnAuthRead
      modifies this
      ensures unchanged(`header, `remoteHost, `remotePort, `connecting, `methodCount)
      ensures |old(input)| < 2 ==> unchanged(this)
      ensures |old(input)| >= 2 && old(input)[0] != AUTH_VERSION ==> !alive && out == old(out)
      ensures |old(input)| >= 2 && old(input)[0] == AUTH_VERSION && !Short127(old(input)) && !NameOnly(old(input)) ==>
                unchanged(this)
      ensures |old(input)| >= 2 && old(input)[0] == AUTH_VERSION && Short127(old(input)) ==>
                var (u, p, n) := Credentials(old(input)).value;
                && alive && callback == OnConnectRead && input == old(input)[n..]
                && out == old(out) + [AUTH_VERSION, if Holds(users, u, p) then 0 else 0xFF]
      ensures |old(input)| >= 2 && old(input)[0] == AUTH_VERSION && NameOnly(old(input)) ==>
                && alive && callback == OnConnectRead && input == old(input)
                && (|| out == old(out) + [AUTH_VERSION, 0xFF]
                    || (out == old(out) + [AUTH_VERSION, 0] && users.Some? && CStr(old(input)[2..]) in users.value))
    {
      if |input| < 2 {
        return;
      }
      ghost var s := input;
      var len := if |input| < 1024 then |input| else 1024;
      var data := input[..len];
      if data[0] != AUTH_VERSION {
        alive := false;
        return;
      }
      var u: nat := data[1];
      if u >= 128 || len - 2 < u {
        return;
      }
      var username := CStr(data[2..2 + u]);
      PrefixSlice(s, len, 2, 2 + u);
      var password: Bytes := *;
      if len > 2 + u {
        var p: nat := data[2 + u];
        if p >= 128 || len - 2 - u - 1 < p {
          return;
        }
        password := CStr(data[3 + u..3 + u + p]);
        PrefixSlice(s, len, 3 + u, 3 + u + p);
        var r, taken;
        r, taken, input := TakeFull(input, 3 + u + p);
      }
      var result: byte := 0xFF;
      if users.Some? && username in users.value && users.value[username] == password {
        result := 0;
      }
      out := out + [AUTH_VERSION, result];
      callback := OnConnectRead;
      assert NameOnly(s) ==> s[2..] == s[2..2 + u];
    }

    /** `docks_connect_read`; `reachable` says whether connecting to the host can be started. A command other than
        CONNECT is only logged here. */
    method OnConnect(reachable: bool)
      requires alive && callback == OnConnectRead && replyData.Length == 261
      modifies this, replyData
      ensures |old(input)| < 4 ==> unchanged(this) && unchanged(replyData)
      ensures |old(input)| >= 4 && !Acceptable(old(input)[..4]) ==> !alive && out == old(out)
      ensures |old(input)| >= 4 && Acceptable(old(input)[..4]) ==>
                && header == old(input)[..4] && callback == ReadAddress
                && Requested(old(input)[4..], input, old(connecting), reachable)
      ensures out == old(out) && (connecting && !old(connecting) ==> replyData[..3] == [VERSION, SUCCEEDED, 0])
      ensures |old(input)| >= 4 && !(old(input)[0] == 5 && old(input)[2] == 0 && old(input)[3] in {1, 3, 4}) ==> !alive
      ensures connecting && !old(connecting) ==> |old(input)| >= 4 && old(input)[1] == 1 && reachable
      ensures |old(input)| >= 4 && Acceptable(old(input)[..4]) && old(input)[1] != 1 ==>
                connecting == old(connecting) && (alive <==> !Request(old(input)[3], old(input)[4..]).Malformed?)
    {
      if |input| < 4 {
        return;
      }
      var r, data;
      r, data, input := TakeFull(input, 4);
      assert data == old(input)[..4] && input == old(input)[4..];
      header := data;
      if header[0] != VERSION {
        alive := false;
        return;
      }
      if header[2] != 0 {
        alive := false;
        return;
      }
      var atype := header[3];
      if atype != ATYPE_IPV4 && atype != ATYPE_DOMAIN && atype != ATYPE_IPV6 {
        alive := false;
        return;
      }
      OnReadAddress(reachable);
      callback := ReadAddress;
    }

    /** `read_address`. A domain request is taken from the in-buffer, up to 514 bytes of it, before its length is looked
        at; the other two wait until they are complete. */
    method OnReadAddress(reachable: bool)
      requires alive && Acceptable(header) && replyData.Length == 261
      modifies this, replyData
      ensures unchanged(`callback, `out, `header, `methodCount, `method_)
      ensures Requested(old(input), input, old(connecting), reachable)
      ensures connecting && !old(connecting) ==> replyData[..3] == [VERSION, SUCCEEDED, 0]
    {
      var bytes;
      if header[3] == ATYPE_IPV4 {
        if |input| < 6 {
          return;
        }
        bytes := ReadRaw(4);
        remoteHost := Some(V4(bytes));
      } else if header[3] == ATYPE_IPV6 {
        if |input| < 18 {
          return;
        }
        bytes := ReadRaw(16);
        remoteHost := Some(V6(bytes));
      } else {
        var complete := ReadDomain();
        if !complete {
          return;
        }
      }
      Connect(reachable);
    }

    /** An address of `n` bytes, and the port. */
    method ReadRaw(n: nat) returns (bytes: Bytes)
      requires n > 0 && n + 2 <= |input|
      modifies this`input, this`remotePort
      ensures bytes == old(input)[..n] && remotePort == U16(old(input), n) && input == old(input)[n + 2..]
    {
      ghost var s := input;
      var r, port;
      r, bytes, input := TakeFull(input, n);
      r, port, input := TakeFull(input, 2);
      remotePort := U16(port, 0);
      assert s == bytes + (port + input) && s[n] == port[0] && s[n + 1] == port[1];
    }

    /** The domain branch of `read_address`. */
    method ReadDomain() returns (complete: bool)
      requires alive
      modifies this`input, this`alive, this`remoteHost, this`remotePort
      ensures complete <==> Request(ATYPE_DOMAIN, old(input)).Wanted?
      ensures !alive <==> old(input) != [] && old(input)[0] == 0
      ensures match Request(ATYPE_DOMAIN, old(input))
              case Waiting(taken) => alive && input == old(input)[taken..]
              case Malformed => !alive
              case Wanted(host, port, taken) =>
                alive && input == old(input)[taken..] && remoteHost == Some(host) && remotePort == port
    {
      var s := input;
      var len := |s|;
      var r, data;
      r, data, input := TakeFull(input, if len < 514 then len else 514);
      if r <= 0 {
        return false;
      }
      assert data == s[..r] && input == s[r..];
      var n: nat := data[0];
      if n == 0 {
        alive := false;
        return false;
      }
      if len < 1 + n + 2 {
        return false;
      }
      PrefixSlice(s, r, 1, 1 + n);
      remoteHost := Some(Domain(CStr(data[1..1 + n])));
      remotePort := U16(data, 1 + n);
      return true;
    }

    /** The end of `read_address`: the start of the reply, and connecting to the remote host. */
    method Connect(reachable: bool)
      requires alive && |header| == 4 && replyData.Length == 261
      modifies this`alive, this`connecting, replyData
      ensures replyData[..3] == [VERSION, if header[1] == CONNECT then SUCCEEDED else COMMAND_NOT_SUPPORTED, 0]
      ensures alive <==> header[1] != CONNECT || reachable
      ensures connecting <==> old(connecting) || (header[1] == CONNECT && reachable)
    {
      replyData[0] := VERSION;
      replyData[1] := if header[1] != CONNECT then COMMAND_NOT_SUPPORTED else SUCCEEDED;
      replyData[2] := 0;
      if replyData[1] == SUCCEEDED {
        if !reachable {
          alive := false;
          return;
        }
        connecting := true;
      }
    }

    /** Where the server stands after `before` was in its in-buffer and the address was to be read. */
    ghost predicate Requested(before: Bytes, after: Bytes, was: bool, reachable: bool)
      requires |header| == 4
      reads this
    {
      match Request(header[3], before)
      case Waiting(taken) => alive && after == before[taken..] && connecting == was
      case Malformed => !alive && connecting == was
      case Wanted(host, port, taken) =>
        && after == before[taken..] && remoteHost == Some(host) && remotePort == port
        && (alive <==> header[1] != CONNECT || reachable)
        && (connecting <==> was || (header[1] == CONNECT && reachable))
    }

    /** `memcpy` into the reply. */
    method CopyToReply(at: nat, data: Bytes)
      requires at + |data| <= replyData.Length
      modifies replyData
      ensures replyData[..] == old(replyData[..at]) + data + old(replyData[at + |data|..])
    {
      forall i | 0 <= i < |data| {
        replyData[at + i] := data[i];
      }
    }

    /** `send_client_auth_response`, once the remote host has accepted; `local` is the address the connection is bound
        to, if it could be fetched. */
    method SendReply(local: Option<(Address, uint16)>)
      requires alive && replyData.Length == 261
      requires local.Some? ==> !local.value.0.Domain? && WellSized(local.value.0)
      modifies this`out, this`alive, replyData
      ensures local == None ==> !alive && out == old(out)
      ensures local.Some? ==>
                alive && out == old(out) + old(replyData[..3]) + Wired(local.value.0) + Short(local.value.1)
    {
      if local == None {
        alive := false;
        return;
      }
      var (address, port) := local.value;
      var len;
      CopyToReply(4, address.bytes);
      if address.V4? {
        replyData[3] := ATYPE_IPV4;
        len := 4 + 4 + 2;
      } else {
        replyData[3] := ATYPE_IPV6;
        len := 4 + 16 + 2;
      }
      CopyToReply(len - 2, Short(port));
      assert replyData[..3] == old(replyData[..3]);
      assert replyData[3..len] == Wired(address) + Short(port);
      assert replyData[..len] == old(replyData[..3]) + (Wired(address) + Short(port));
      out := out + replyData[..len];
    }

    /** `on_remote_connect` when connecting failed. */
    method RemoteFailed()
      requires alive
      modifies this`alive
      ensures !alive
    {
      alive := false;
    }
  }

  /** A request header that is gone on with; the command is not looked at. */
  predicate Acceptable(header: Bytes)
  {
    |header| == 4 && header[0] == VERSION && header[2] == 0 && header[3] in {ATYPE_IPV4, ATYPE_DOMAIN, ATYPE_IPV6}
  }

  /** What the input behind a request header of the given address type amounts to, and how much of it is taken. */
  datatype RequestFront = Waiting(taken: nat) | Malformed | Wanted(host: Address, port: nat, taken: nat)

  function Request(atype: byte, s: Bytes): (f: RequestFront)
    ensures !f.Malformed? ==> f.taken <= |s|
  {
    if atype == ATYPE_IPV4 then if |s| < 6 then Waiting(0) else Wanted(V4(s[..4]), U16(s, 4), 6)
    else if atype == ATYPE_IPV6 then if |s| < 18 then Waiting(0) else Wanted(V6(s[..16]), U16(s, 16), 18)
    else if s == [] then Waiting(0)
    else
      var taken := if |s| < 514 then |s| else 514;
      var n: nat := s[0];
      if n == 0 then Malformed
      else if |s| < 1 + n + 2 then Waiting(taken)
      else Wanted(Domain(CStr(s[1..1 + n])), U16(s, 1 + n), taken)
  }

  /** `a` and `port` make a request. */
  predicate Requests(a: Address, port: nat)
  {
    Replies(a, port) && a != Domain([])
  }

  /** What a request is taken for: behind its header it is wanted exactly if it begins with an address and a port, which
      come out, and malformed exactly if it is the name of no host. */
  lemma WantedIs(atype: byte, s: Bytes)
    requires atype in {1, 3, 4}
    ensures Request(atype, s).Wanted? <==>
            exists a, port: nat :: Requests(a, port) && Wired(a) + Short(port) <= [atype] + s
    ensures forall a, port: nat :: Requests(a, port) && Wired(a) + Short(port) <= [atype] + s ==>
              Request(atype, s).Wanted? && Request(atype, s).host == Stored(a) && Request(atype, s).port == port
    ensures Request(atype, s).Malformed? <==> atype == 3 && s != [] && s[0] == 0
  {
    hide Request;
    if Request(atype, s).Wanted? {
      WantedHas(atype, s);
    }
    forall a, port: nat | Requests(a, port) && Wired(a) + Short(port) <= [atype] + s
      ensures Request(atype, s).Wanted? && Request(atype, s).host == Stored(a) && Request(atype, s).port == port
    {
      var frame := Wired(a) + Short(port);
      assert [atype] + s == frame + ([atype] + s)[|frame|..];
      RequestGives(a, port, ([atype] + s)[|frame|..]);
      assert ([atype] + s)[1..] == s && ([atype] + s)[0] == frame[0];
    }
    MalformedIs(atype, s);
  }

  lemma MalformedIs(atype: byte, s: Bytes)
    requires atype in {1, 3, 4}
    ensures Request(atype, s).Malformed? <==> atype == 3 && s != [] && s[0] == 0
  {
  }

  /** The bytes of a wanted request. */
  lemma WantedHas(atype: byte, s: Bytes)
    requires atype in {1, 3, 4} && Request(atype, s).Wanted?
    ensures exists a, port: nat :: Requests(a, port) && Wired(a) + Short(port) <= [atype] + s
  {
    hide Request, Short, U16, CStr, Wired;
    var n := WantedLong(atype, s);
    var a := AddressAt(atype, s, n);
    var port := U16(s, n);
    ShortBack(0, s[n..n + 2]);
    U16Of(s, n);
    FrontOf(atype, s, n);
    assert Requests(a, port);
  }

  lemma WantedLong(atype: byte, s: Bytes) returns (n: nat)
    requires atype in {1, 3, 4} && Request(atype, s).Wanted?
    ensures n + 2 <= |s|
    ensures n == (if atype == 1 then 4 else if atype == 4 then 16 else 1 + s[0] as int) && (atype == 3 ==> n > 1)
  {
    n := if atype == 1 then 4 else if atype == 4 then 16 else 1 + s[0] as int;
  }

  lemma FrontOf(b: byte, s: Bytes, n: nat)
    requires n + 2 <= |s|
    ensures ([b] + s[..n]) + s[n..n + 2] <= [b] + s
  {
  }

  lemma AddressAt(atype: byte, s: Bytes, n: nat) returns (a: Address)
    requires atype in {1, 3, 4} && s != [] && n <= |s|
    requires n == (if atype == 1 then 4 else if atype == 4 then 16 else 1 + s[0] as int) && (atype == 3 ==> n > 1)
    ensures WellSized(a) && a != Domain([]) && Wired(a) == [atype] + s[..n]
  {
    if atype == 1 {
      a := V4(s[..4]);
    } else if atype == 4 {
      a := V6(s[..16]);
    } else {
      var name := s[1..n];
      assert s[..n] == [|name|] + name;
      a := Domain(name);
    }
  }

  lemma U16Of(s: Bytes, n: nat)
    requires n + 2 <= |s|
    ensures U16(s, n) == U16(s[n..n + 2], 0)
  {
  }

  /** An address and a port, with anything behind them, are read back. What follows an IPv4 or IPv6 address stays. */
  lemma RequestGives(a: Address, port: nat, rest: Bytes)
    requires Requests(a, port)
    ensures var w := Wired(a) + Short(port) + rest;
            && Request(w[0], w[1..]).Wanted?
            && Request(w[0], w[1..]).host == Stored(a) && Request(w[0], w[1..]).port == port
            && (!a.Domain? ==> w[1..][Request(w[0], w[1..]).taken..] == rest)
  {
    hide Short, U16, CStr;
    var w := Wired(a) + Short(port) + rest;
    var s := w[1..];
    var n := |Wired(a)| - 1;
    assert w == Wired(a) + (Short(port) + rest);
    assert w[..n + 1] == Wired(a) && s[..n] == Wired(a)[1..];
    assert w[n + 1..] == Short(port) + rest;
    assert s[n..] == w[n + 1..];
    assert s[n..n + 2] == Short(port);
    ShortAt(s, n, port);
    match a
    case V4(b) => assert s[..4] == b; assert s[6..] == rest;
    case V6(b) => assert s[..16] == b; assert s[18..] == rest;
    case Domain(name) => assert s[1..n] == s[..n][1..] == name;
  }

  /** A request in one piece: the server has its address and port, and what follows an IPv4 or IPv6 address stays. */
  method WholeRequest(server: Server, a: Address, port: uint16, rest: Bytes, reachable: bool)
    requires server.alive && server.callback == OnConnectRead && !server.connecting && server.replyData.Length == 261
    requires Requests(a, port) && server.input == [5, 1, 0] + Wired(a) + Short(port) + rest
    modifies server, server.replyData
    ensures server.remoteHost == Some(Stored(a)) && server.remotePort == port
    ensures server.connecting == server.alive == reachable && server.out == old(server.out)
    ensures !a.Domain? ==> server.input == rest
  {
    hide Request, Short, Wired;
    ghost var s := server.input;
    ghost var w := Wired(a) + Short(port) + rest;
    RequestGives(a, port, rest);
    WiredType(a);
    assert s == [5, 1, 0] + w && s[4..] == w[1..] && s[3] == w[0];
    server.OnConnect(reachable);
  }

  lemma WiredType(a: Address)
    requires WellSized(a)
    ensures |Wired(a)| >= 2 && Wired(a)[0] in {1, 3, 4}
  {
  }

  /** Waiting for more loses nothing except where part of a domain request has arrived. */
  lemma WaitingKeeps(atype: byte, s: Bytes)
    requires Request(atype, s).Waiting?
    ensures s[Request(atype, s).taken..] == s <==> atype in {ATYPE_IPV4, ATYPE_IPV6} || s == []
  {
    if atype !in {ATYPE_IPV4, ATYPE_IPV6} && s != [] {
      assert |s[Request(atype, s).taken..]| < |s|;
    }
  }

  /** The bytes that a request of this address type takes behind its header. */
  function RequestLength(atype: byte, s: Bytes): nat
    requires s != []
  {
    if atype == ATYPE_IPV4 then 6 else if atype == ATYPE_IPV6 then 18 else
      var n: nat := s[0];
      1 + n + 2
  }

  /** Nothing but the request is taken, except where more has arrived behind a domain request: that is lost, up to 514
      bytes in all. */
  lemma WantedTakes(atype: byte, s: Bytes)
    requires Request(atype, s).Wanted?
    ensures s != [] && RequestLength(atype, s) <= Request(atype, s).taken
    ensures Request(atype, s).taken == RequestLength(atype, s) <==>
            atype in {ATYPE_IPV4, ATYPE_IPV6} || |s| == RequestLength(atype, s)
    ensures atype !in {ATYPE_IPV4, ATYPE_IPV6} ==> Request(atype, s).taken == if |s| < 514 then |s| else 514
  {
  }

  /** A byte that follows a domain request is taken with it. */
  lemma FollowingLost()
    ensures Request(ATYPE_DOMAIN, [1, 97, 0, 80, 22]) == Wanted(Domain([97]), 80, 5)
    ensures RequestLength(ATYPE_DOMAIN, [1, 97, 0, 80, 22]) == 4
  {
    assert [1, 97, 0, 80, 22][1..2] == [97];
    CStrOf([97]);
  }

  /** When the length of a domain arrives on its own it is gone, and the rest is not a request any more. */
  lemma LengthLost()
    ensures Request(ATYPE_DOMAIN, [3, 97, 98, 99, 0, 80]).Wanted?
    ensures Request(ATYPE_DOMAIN, [3]) == Waiting(1) && Request(ATYPE_DOMAIN, [97, 98, 99, 0, 80]) == Waiting(5)
  {
  }

  /** Login and request, both delivered whole: the answer to the login says whether the server holds the pair, but
      connecting starts either way. It is for the client to stop when it is refused. */
  method LoginThenRequest(server: Server, username: Bytes, password: Bytes, host: Bytes, port: uint16, reachable: bool)
    requires server.alive && server.callback == OnAuthRead && server.input == [] && !server.connecting
    requires server.replyData.Length == 261
    requires |username| <= 127 && |password| <= 127 && 0 !in username && 0 !in password
    requires 1 <= |host| <= 127 && 0 !in host
    modifies server, server.replyData
    ensures server.out == old(server.out) + [AUTH_VERSION, if Holds(server.users, username, password) then 0 else 0xFF]
    ensures server.connecting == server.alive == reachable
    ensures server.remoteHost == Some(Domain(host)) && server.remotePort == port
  {
    hide Credentials, Request, AuthFrame, ConnectFrame, Holds;
    CredentialsRoundTrip(username, password);
    server.input := AuthFrame(username, password);
    server.OnAuth();
    RequestRoundTrip(host, port);
    server.input := server.input + ConnectFrame(host, port);
    assert server.input == ConnectFrame(host, port);
    server.OnConnect(reachable);
  }

  /** A server with one user, offered user and password, given an empty pair and then a request: it says no and
      connects. */
  method RefusedGoesOn() returns (server: Server)
    ensures !NoUsers(server.users) && !Holds(server.users, [], [])
    ensures server.out == [VERSION, USERNAME_PASSWORD, AUTH_VERSION, 0xFF] && server.connecting
  {
    var users: map<Bytes, Bytes> := map[[117] := [112]];
    assert [117] in users;
    server := new Server(Some(users));
    server.input := [VERSION, 1, USERNAME_PASSWORD];
    assert server.input[2..][..1] == [USERNAME_PASSWORD];
    server.OnMethods();
    assert server.input == [];
    LoginThenRequest(server, [], [], [97], 80, true);
  }

  /** A client's request, delivered whole, gives the server the client's host and port and leaves nothing over. */
  lemma RequestRoundTrip(host: Bytes, port: nat)
    requires 1 <= |host| <= 127 && 0 !in host && port < 0x1_0000
    ensures Acceptable(ConnectFrame(host, port)[..4]) && ConnectFrame(host, port)[1] == CONNECT
    ensures Request(ATYPE_DOMAIN, ConnectFrame(host, port)[4..])
            == Wanted(Domain(host), port, |ConnectFrame(host, port)| - 4)
    ensures ConnectFrame(host, port)[3] == ATYPE_DOMAIN
  {
    hide Short, U16, CStr;
    var s := ConnectFrame(host, port)[4..];
    assert s == [|host|] + host + Short(port);
    assert s[1..1 + |host|] == host && s[1 + |host|..] == Short(port);
    CStrOf(host);
    ShortAt(s, 1 + |host|, port);
  }

  lemma ShortAt(s: Bytes, at: nat, v: nat)
    requires at + 2 <= |s| && s[at..at + 2] == Short(v) && v < 0x1_0000
    ensures U16(s, at) == v
  {
    assert s[at] == Short(v)[0] && s[at + 1] == Short(v)[1];
    ShortBack(v, [0, 0]);
  }

  /** The credentials in a client's frame are the client's. */
  lemma CredentialsRoundTrip(username: Bytes, password: Bytes)
    requires |username| <= 127 && |password| <= 127 && 0 !in username && 0 !in password
    ensures var s := AuthFrame(username, password);
            && Short127(s) && Credentials(s) == Some((username, password, |s|))
            && |s| == 3 + |username| + |password| && s[0] == AUTH_VERSION && s[1] == |username|
  {
    var s := AuthFrame(username, password);
    assert s[2..2 + |username|] == username;
    assert s[2 + |username|] == |password|;
    assert s[3 + |username|..3 + |username| + |password|] == password;
    CStrOf(username);
    CStrOf(password);
  }

  /** Complete credentials are those of a frame at the front of the input, as far as its zero bytes. */
  lemma CredentialsAre(s: Bytes)
    ensures Credentials(s).Some? ==>
              exists u: Bytes, p: Bytes :: Login(s, u, p) && Credentials(s).value == (CStr(u), CStr(p), 3 + |u| + |p|)
    ensures forall u: Bytes, p: Bytes :: Login(s, u, p) ==>
              Credentials(s) == Some((CStr(u), CStr(p), 3 + |u| + |p|))
  {
    hide CStr;
    if Credentials(s).Some? {
      var n: nat := s[1];
      var m: nat := s[2 + n];
      assert Login(s, s[2..2 + n], s[3 + n..3 + n + m]);
    }
  }

  /** A user name and a password stand at the front of the input, as section 2 of RFC 1929 has them. */
  predicate Login(s: Bytes, u: Bytes, p: Bytes)
  {
    && |s| >= 3 + |u| + |p| && s[1] == |u| && s[2..2 + |u|] == u
    && s[2 + |u|] == |p| && s[3 + |u|..3 + |u| + |p|] == p
  }

  lemma PrefixSlice(s: Bytes, n: nat, a: nat, b: nat)
    requires a <= b <= n <= |s|
    ensures s[..n][a..b] == s[a..b]
  {
  }

  /** The input ends right behind the user name. */
  predicate NameOnly(s: Bytes)
  {
    |s| >= 2 && s[1] < 128 && |s| == 2 + s[1] as int
  }

  /** Complete credentials with lengths that fit a signed character. */
  predicate Short127(s: Bytes)
  {
    Credentials(s).Some? && s[1] < 128 && var u: nat := s[1]; s[2 + u] < 128
  }
}
