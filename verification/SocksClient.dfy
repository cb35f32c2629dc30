/** The client side of docks: the read callbacks of docks/method.c, docks/auth.c and docks/docks_connect.c. The event's
    in-buffer is the byte sequence that module Buffer shows it to be, and what is written goes to `out`. */
module SocksClient {
  import opened Wire
  import opened Socks

  /** The current read callback. */
  datatype Callback = OnReadNegotiation | OnReadUP | OnReadServerConnect | OnReadServerBindHost | OnReadServerBindPort

  /** The code takes a domain's length for a signed character. */
  predicate DomainSane(reply: Bytes)
  {
    |reply| >= 5 && reply[3] == ATYPE_DOMAIN ==> reply[4] <= 127
  }

  /** A client's state while it waits for the reply. */
  datatype Standing = Standing(alive: bool, readOn: bool, callback: Callback, input: Bytes, pending: Bytes,
                               connected: nat, host: Option<Address>, port: Option<nat>)

  /** The callback, what it has to read and the host belong to the reply `s` up to here. */
  ghost predicate Stands(callback: Callback, input: Bytes, host: Option<Address>, s: Bytes)
  {
    if callback == OnReadServerConnect then input == s
    else
      && |s| >= 3 && s[0] == VERSION && s[1] == SUCCEEDED && s[2] == 0
      && (callback == OnReadServerBindHost ==> input == s[3..])
      && (callback == OnReadServerBindPort ==>
            match AddressFront(s[3..])
            case Found(h, len) => host == Some(Stored(h)) && input == s[3 + len..]
            case _ => false)
  }

  lemma StandsLonger(callback: Callback, input: Bytes, host: Option<Address>, s: Bytes, more: Bytes)
    requires Stands(callback, input, host, s)
    ensures Stands(callback, input + more, host, s + more)
  {
    if |s| >= 3 {
      assert (s + more)[3..] == s[3..] + more;
      AddressFrontStable(s[3..], more);
    }
  }

  /** A client that stands like this has read the reply `s` as far as it goes, exactly as the reply parsed at once. */
  ghost predicate AgreesWith(v: Standing, s: Bytes)
  {
    match ParseReply(s)
    case Undecided =>
      && v.alive && v.readOn && v.pending == [] && v.connected == 0
      && (if |s| < 3 then v.callback == OnReadServerConnect && v.input == s
          else match AddressFront(s[3..])
            case Missing => v.callback == OnReadServerBindHost && v.input == s[3..]
            case Unknown => false
            case Found(h, len) =>
              v.callback == OnReadServerBindPort && v.host == Some(Stored(h)) && v.input == s[3 + len..])
    case Refused => !v.alive && v.connected == 0
    case Granted(h, p, used) =>
      && v.alive && !v.readOn && v.connected == 1
      && v.host == Some(Stored(h)) && v.port == Some(p) && v.input + v.pending == s[used..]
  }

  lemma RefusedStays(v: Standing, s: Bytes, more: Bytes)
    requires AgreesWith(v, s) && !v.alive
    ensures AgreesWith(v, s + more)
  {
    VerdictStable(s, more);
  }

  lemma GrantedStays(v: Standing, s: Bytes, more: Bytes)
    requires AgreesWith(v, s) && v.alive && !v.readOn
    ensures AgreesWith(v.(pending := v.pending + more), s + more)
  {
    VerdictStable(s, more);
    var used := ParseReply(s).used;
    assert (s + more)[used..] == s[used..] + more;
    assert v.input + (v.pending + more) == (v.input + v.pending) + more;
  }

  lemma UndecidedStands(v: Standing, s: Bytes)
    requires AgreesWith(v, s) && v.alive && v.readOn
    ensures Stands(v.callback, v.input, v.host, s) && v.pending == [] && v.connected == 0
  {
  }

  class Client {
    const username: Bytes
    const password: Bytes
    const host: Bytes
    const port: uint16

    var input: Bytes
    var out: Bytes
    var pending: Bytes // arrived at the socket while reading is off
    var callback: Callback
    var readOn: bool
    var alive: bool
    var bindHost: Option<Address>
    var bindPort: Option<nat>
    var connected: nat // calls of `on_server_connect`
    ghost var reply: Bytes // what has arrived since the request was sent

    constructor (username: Bytes, password: Bytes, host: Bytes, port: uint16)
      ensures this.username == username && this.password == password && this.host == host && this.port == port
      ensures input == out == pending == reply == [] && readOn && alive && connected == 0
      ensures callback == OnReadNegotiation && bindHost == None && bindPort == None
    {
      this.username, this.password, this.host, this.port := username, password, host, port;
      input, out, pending, reply := [], [], [], [];
      callback, readOn, alive, connected := OnReadNegotiation, true, true, 0;
      bindHost, bindPort := None, None;
    }

    /** The client's configuration: names and lengths that fit a signed character. */
    predicate Configured()
    {
      && |username| <= 127 && |password| <= 127 && 1 <= |host| <= 127
      && 0 !in username && 0 !in password && 0 !in host
    }

    /** All that sending asks for: the lengths, kept to one byte, are signed characters and must not be negative. */
    predicate Sendable()
    {
      |username| % 0x100 <= 127 && |password| % 0x100 <= 127 && |host| % 0x100 <= 127
    }

    lemma ConfiguredIsSent()
      requires Configured()
      ensures Sendable() && Sent(username) == username && Sent(password) == password && Sent(host) == host
    {
    }

    /** `docks_write_methods`. */
    method WriteMethods()
      modifies this`out, this`callback
      ensures out == old(out) + MethodsFrame(username) && callback == OnReadNegotiation
    {
      var data := if username == [] then [VERSION, 1, NO_AUTHENTICATION]
                  else [VERSION, 2, NO_AUTHENTICATION, USERNAME_PASSWORD];
      out := out + data;
      callback := OnReadNegotiation;
    }

    /** `on_read_negotication`. */
    method OnNegotiation()
      requires Sendable()
      modifies this
      ensures unchanged(`pending, `readOn, `alive, `bindHost, `bindPort, `connected)
      ensures |old(input)| < 2 ==> unchanged(this)
      ensures |old(input)| >= 2 ==> input == old(input)[2..]
      ensures |old(input)| >= 2 && old(input)[0] == VERSION && old(input)[1] == USERNAME_PASSWORD ==>
                && out == old(out) + AuthFrame(Sent(username), Sent(password))
                && callback == OnReadUP && reply == old(reply)
      ensures |old(input)| >= 2 && old(input)[0] == VERSION && old(input)[1] == NO_AUTHENTICATION ==>
                out == old(out) + ConnectFrame(Sent(host), port) && callback == OnReadServerConnect && reply == input
      ensures |old(input)| >= 2 &&
              (old(input)[0] != VERSION || old(input)[1] !in {NO_AUTHENTICATION, USERNAME_PASSWORD}) ==>
                unchanged(`out, `callback, `reply)
    {
      hide AuthFrame, ConnectFrame;
      if |input| < 2 {
        return;
      }
      var r, data;
      r, data, input := TakeFull(input, 2);
      assert old(input)[0] == data[0] && old(input)[1] == data[1] && old(input)[2..] == input;
      if data[0] != VERSION {
        return;
      }
      if data[1] == USERNAME_PASSWORD {
        SendLogin();
      } else if data[1] == NO_AUTHENTICATION {
        SendRemoteAddress();
      }
    }

    /** The user name and password branch of `on_read_negotication`. */
    method SendLogin()
      requires Sendable()
      modifies this`out, this`callback
      ensures out == old(out) + AuthFrame(Sent(username), Sent(password)) && callback == OnReadUP
    {
      out := out + [AUTH_VERSION, |username| % 0x100];
      out := out + username[..|username| % 0x100];
      out := out + [|password| % 0x100];
      out := out + password[..|password| % 0x100];
      Behind(old(out), [AUTH_VERSION, |username| % 0x100], Sent(username), [|password| % 0x100], Sent(password));
      callback := OnReadUP;
    }

    /** `docks_on_read_UP`. */
    method OnUP()
      requires Sendable()
      modifies this
      ensures unchanged(`pending, `readOn, `alive, `bindHost, `bindPort, `connected)
      ensures |old(input)| < 2 ==> unchanged(this)
      ensures |old(input)| >= 2 ==> input == old(input)[2..]
      ensures |old(input)| >= 2 && old(input)[..2] == [AUTH_VERSION, 0] ==>
                out == old(out) + ConnectFrame(Sent(host), port) && callback == OnReadServerConnect && reply == input
      ensures |old(input)| >= 2 && old(input)[..2] != [AUTH_VERSION, 0] ==> unchanged(`out, `callback, `reply)
    {
      if |input| < 2 {
        return;
      }
      var r, data;
      r, data, input := TakeFull(input, 2);
      if data[0] != AUTH_VERSION {
        return;
      }
      if data[1] != 0 {
        return;
      }
      SendRemoteAddress();
    }

    /** `docks_send_remote_address`. */
    method SendRemoteAddress()
      requires Sendable()
      modifies this`out, this`callback, this`reply
      ensures out == old(out) + ConnectFrame(Sent(host), port) && callback == OnReadServerConnect && reply == input
    {
      out := out + [VERSION, CONNECT, 0, ATYPE_DOMAIN];
      out := out + [|host| % 0x100];
      out := out + host[..|host| % 0x100];
      out := out + Short(port);
      Behind(old(out), [VERSION, CONNECT, 0, ATYPE_DOMAIN], [|host| % 0x100], Sent(host), Short(port));
      assert ConnectFrame(Sent(host), port) ==
             [VERSION, CONNECT, 0, ATYPE_DOMAIN] + [|host| % 0x100] + Sent(host) + Short(port);
      callback := OnReadServerConnect;
      reply := input;
    }

    /** The request was sent and its reply is being read. */
    predicate InReply()
      reads this
    {
      callback in {OnReadServerConnect, OnReadServerBindHost, OnReadServerBindPort}
    }

    ghost function View(): Standing
      reads this
    {
      Standing(alive, readOn, callback, input, pending, connected, bindHost, bindPort)
    }

    /** The client has read the reply as far as it goes, exactly as the reply parsed at once. */
    ghost predicate Agrees()
      reads this
    {
      AgreesWith(View(), reply)
    }

    /** The granted reply with this address and port has arrived, and was read. */
    ghost predicate Got(bound: Address, p: nat)
      requires Replies(bound, p) && ReplyFrame(bound, p) <= reply
      reads this
    {
      && alive && !readOn && connected == 1 && bindHost == Some(Stored(bound)) && bindPort == Some(p)
      && input + pending == reply[|ReplyFrame(bound, p)|..]
    }

    /** `on_server_connect` was called exactly if a granted reply has arrived, with its address and port, and the event
        was freed for any other version, status or reserved byte. */
    ghost predicate Answered()
      reads this
    {
      && connected <= 1
      && (connected == 1 <==> exists bound, p: nat :: Replies(bound, p) && ReplyFrame(bound, p) <= reply)
      && (forall bound, p: nat :: Replies(bound, p) && ReplyFrame(bound, p) <= reply ==> Got(bound, p))
      && (connected == 1 ==> |reply| >= 3 && reply[..3] == [5, 0, 0])
      && (|reply| >= 3 && reply[..3] != [5, 0, 0] ==> !alive)
    }

    lemma Gets(bound: Address, p: nat)
      requires Agrees() && Replies(bound, p) && ReplyFrame(bound, p) <= reply
      ensures Got(bound, p)
    {
      hide ReplyFrame, ParseReply;
      var frame := ReplyFrame(bound, p);
      assert frame + reply[|frame|..] == reply;
      ReplyRoundTrip(bound, p, reply[|frame|..]);
    }

    lemma Answers()
      requires Agrees()
      ensures Answered()
    {
      hide ReplyFrame, Got, ParseReply, AddressFront;
      VerdictIs(reply);
      forall bound, p: nat | Replies(bound, p) && ReplyFrame(bound, p) <= reply
        ensures Got(bound, p)
      {
        Gets(bound, p);
      }
      HeaderDecides(reply);
    }

    /** `on_read_server_connect`. */
    method OnServerConnect()
      requires alive && readOn && pending == [] && connected == 0 && callback == OnReadServerConnect && input == reply
      requires DomainSane(reply)
      modifies this
      ensures Agrees() && InReply() && reply == old(reply) && out == old(out)
      ensures |reply| >= 3 && reply[..3] != [5, 0, 0] ==> !alive && connected == 0
      ensures |reply| < 3 ==> unchanged(this)
      ensures Answered()
    {
      hide Answered;
      var r, header;
      r, header, input := TakeFull(input, 3);
      if r != 3 {
        Answers();
        return;
      }
      assert header[0] == reply[0] && header[1] == reply[1] && header[2] == reply[2];
      if header[0] != VERSION || header[2] != 0 {
        alive := false;
        Answers();
        return;
      }
      if header[1] != SUCCEEDED {
        alive := false;
        Answers();
        return;
      }
      callback := OnReadServerBindHost;
      assert input == reply[3..];
      OnBindHost();
      Answers();
    }

    /** `on_read_server_bind_host`. */
    method OnBindHost()
      requires alive && readOn && pending == [] && connected == 0 && callback == OnReadServerBindHost
      requires |reply| >= 3 && reply[0] == VERSION && reply[1] == SUCCEEDED && reply[2] == 0 && input == reply[3..]
      requires DomainSane(reply)
      modifies this
      ensures Agrees() && InReply() && reply == old(reply) && out == old(out)
    {
      hide AddressFront;
      var complete := ReadHost();
      if !complete {
        return;
      }
      callback := OnReadServerBindPort;
      OnBindPort();
    }

    /** The address of the reply, if all of it is there; a bad address type frees the event. */
    method ReadHost() returns (complete: bool)
      requires alive && (|input| >= 2 && input[0] == ATYPE_DOMAIN ==> input[1] <= 127)
      modifies this`input, this`alive, this`bindHost
      ensures complete <==> AddressFront(old(input)).Found?
      ensures match AddressFront(old(input))
              case Missing => unchanged(this)
              case Unknown => !alive
              case Found(h, len) => alive && bindHost == Some(Stored(h)) && input == old(input)[len..]
    {
      if |input| < 1 {
        return false;
      }
      ghost var s := input;
      var atype := input[0];
      var r, data;
      if atype == ATYPE_IPV4 {
        r, data, input := TakeFull(input, 5);
        if r != 5 {
          return false;
        }
        bindHost := Some(V4(data[1..]));
      } else if atype == ATYPE_IPV6 {
        r, data, input := TakeFull(input, 17);
        if r != 17 {
          return false;
        }
        bindHost := Some(V6(data[1..]));
      } else if atype == ATYPE_DOMAIN {
        if |input| < 2 {
          return false;
        }
        var n: nat := input[1];
        r, data, input := TakeFull(input, 2 + n);
        if r != 2 + n {
          return false;
        }
        bindHost := Some(Domain(CStr(data[2..])));
      } else {
        alive := false;
        return false;
      }
      assert s[..|data|] == data && s[|data|..] == input;
      return true;
    }

    /** `on_read_server_bind_port`, and `on_server_connect`, which stops reading. */
    method OnBindPort()
      requires alive && readOn && pending == [] && connected == 0 && callback == OnReadServerBindPort
      requires |reply| >= 3 && reply[0] == VERSION && reply[1] == SUCCEEDED && reply[2] == 0
      requires var f := AddressFront(reply[3..]);
               f.Found? && bindHost == Some(Stored(f.host)) && input == reply[3 + f.len..]
      modifies this
      ensures Agrees() && InReply() && reply == old(reply) && out == old(out)
    {
      var r, data;
      r, data, input := TakeFull(input, 2);
      if r != 2 {
        return;
      }
      bindPort := Some(U16(data, 0));
      connected := connected + 1;
      readOn := false;
    }

    /** The request was sent, and no callback has run since. */
    ghost predicate Waiting()
      reads this
    {
      alive && readOn && pending == [] && connected == 0 && callback == OnReadServerConnect && input == reply
    }

    /** Either nothing has run since the request was sent, or the client agrees with what has arrived. */
    ghost predicate Replying()
      reads this
    {
      Waiting() || (InReply() && Agrees())
    }

    /** One arrival at the socket: read and given to the current callback, kept back while reading is off, or lost when
        the event was freed. */
    method Deliver(segment: Bytes)
      requires Sendable()
      requires InReply() ==> Replying() && DomainSane(reply + segment)
      modifies this
      ensures old(InReply()) ==> InReply() && Agrees() && reply == old(reply) + segment && out == old(out)
      ensures old(callback) == OnReadNegotiation && old(alive && readOn) ==> Negotiated(old(input) + segment, old(out))
      ensures old(callback) == OnReadUP && old(alive && readOn) ==> LoggedIn(old(input) + segment, old(out))
      ensures !old(InReply()) && old(alive && readOn) ==>
                unchanged(`alive, `readOn, `pending, `bindHost, `bindPort, `connected)
    {
      hide Agrees;
      if InReply() {
        DeliverReply(segment);
      } else {
        DeliverEarlier(segment);
      }
    }

    method DeliverEarlier(segment: Bytes)
      requires Sendable() && !InReply()
      modifies this
      ensures old(callback) == OnReadNegotiation && old(alive && readOn) ==> Negotiated(old(input) + segment, old(out))
      ensures old(callback) == OnReadUP && old(alive && readOn) ==> LoggedIn(old(input) + segment, old(out))
      ensures old(alive && readOn) ==> unchanged(`alive, `readOn, `pending, `bindHost, `bindPort, `connected)
    {
      hide AuthFrame, ConnectFrame, Sent;
      if !alive {
        return;
      }
      if !readOn {
        pending := pending + segment;
        return;
      }
      input := input + segment;
      if callback == OnReadNegotiation {
        OnNegotiation();
      } else {
        OnUP();
      }
    }

    method DeliverReply(segment: Bytes)
      requires InReply() && Replying() && DomainSane(reply + segment)
      modifies this
      ensures InReply() && Agrees() && reply == old(reply) + segment && out == old(out)
    {
      hide AgreesWith, Stands;
      if !alive {
        RefusedStays(View(), reply, segment);
        reply := reply + segment;
        return;
      }
      if !readOn {
        GrantedStays(View(), reply, segment);
        reply := reply + segment;
        pending := pending + segment;
        return;
      }
      StillStands();
      StandsLonger(callback, input, bindHost, reply, segment);
      reply := reply + segment;
      input := input + segment;
      ReadReply();
    }

    lemma StillStands()
      requires Replying() && alive && readOn
      ensures Stands(callback, input, bindHost, reply) && pending == [] && connected == 0
    {
      if InReply() && Agrees() {
        UndecidedStands(View(), reply);
      }
    }

    /** The current callback is called. */
    method ReadReply()
      requires InReply() && alive && readOn && pending == [] && connected == 0 && DomainSane(reply)
      requires Stands(callback, input, bindHost, reply)
      modifies this
      ensures InReply() && Agrees() && reply == old(reply) && out == old(out)
    {
      hide AgreesWith;
      if callback == OnReadServerConnect {
        OnServerConnect();
      } else if callback == OnReadServerBindHost {
        OnBindHost();
      } else {
        OnBindPort();
      }
    }

    /** A run: the reply arrives in any number of segments. */
    method DeliverAll(segments: seq<Bytes>)
      requires Sendable() && InReply() && Replying() && DomainSane(reply + Joined(segments))
      modifies this
      ensures InReply() && reply == old(reply) + Joined(segments) && (segments != [] ==> Agrees() && Answered())
    {
      hide Agrees, Answered;
      assert reply + Joined([]) == reply;
      for i := 0 to |segments|
        invariant InReply() && Replying() && (i > 0 ==> Agrees())
        invariant reply == old(reply) + Joined(segments[..i])
      {
        JoinedPrefix(segments, i);
        JoinedNext(segments, i);
        var all := old(reply) + Joined(segments);
        assert reply + segments[i] == all[..|reply| + |segments[i]|];
        Deliver(segments[i]);
      }
      assert segments[..|segments|] == segments;
      if segments != [] {
        Answers();
      }
    }

    /** The method reply was read, or is not complete. */
    ghost predicate Negotiated(all: Bytes, before: Bytes)
      requires Sendable()
      reads this
    {
      if |all| < 2 then callback == OnReadNegotiation && input == all && out == before
      else
        && input == all[2..]
        && (if all[0] == VERSION && all[1] == USERNAME_PASSWORD then
              out == before + AuthFrame(Sent(username), Sent(password)) && callback == OnReadUP
            else if all[0] == VERSION && all[1] == NO_AUTHENTICATION then
              out == before + ConnectFrame(Sent(host), port) && callback == OnReadServerConnect && reply == input
            else out == before && callback == OnReadNegotiation)
    }

    /** The authentication status was read, or is not complete. */
    ghost predicate LoggedIn(all: Bytes, before: Bytes)
      requires Sendable()
      reads this
    {
      if |all| < 2 then callback == OnReadUP && input == all && out == before
      else
        && input == all[2..]
        && (if all[..2] == [AUTH_VERSION, 0] then
              out == before + ConnectFrame(Sent(host), port) && callback == OnReadServerConnect && reply == input
            else out == before && callback == OnReadUP)
    }
  }

  lemma Behind(out: Bytes, a: Bytes, b: Bytes, c: Bytes, d: Bytes)
    ensures out + a + b + c + d == out + (a + b + c + d)
  {
    assert out + a + b + c == out + (a + b + c);
  }

  ghost function Joined(segments: seq<Bytes>): Bytes
  {
    if segments == [] then [] else Joined(segments[..|segments| - 1]) + segments[|segments| - 1]
  }

  lemma JoinedNext(segments: seq<Bytes>, i: nat)
    requires i < |segments|
    ensures Joined(segments[..i + 1]) == Joined(segments[..i]) + segments[i]
  {
    assert segments[..i + 1][..i] == segments[..i];
  }

  lemma {:induction false} JoinedPrefix(segments: seq<Bytes>, i: nat)
    requires i < |segments|
    ensures Joined(segments[..i]) + segments[i] <= Joined(segments)
    decreases |segments|
  {
    var front := segments[..|segments| - 1];
    if i < |segments| - 1 {
      JoinedPrefix(front, i);
      assert front[..i] == segments[..i];
    }
  }

  /** Segmentation independence: where a client stands depends only on the bytes that have arrived. The verdict, the
      bound address and port, what is left over and the callback are the same for every split into segments, and
      `on_server_connect` was called at most once. */
  lemma SegmentationIndependence(c: Client, d: Client)
    requires c.Agrees() && d.Agrees() && c.reply == d.reply
    ensures c.alive == d.alive && (c.alive ==> c.readOn == d.readOn)
    ensures c.connected == d.connected <= 1
    ensures c.connected == 1 <==> ParseReply(c.reply).Granted?
    ensures !c.alive <==> ParseReply(c.reply).Refused?
    ensures c.connected == 1 ==>
              c.bindHost == d.bindHost && c.bindPort == d.bindPort && c.input + c.pending == d.input + d.pending
    ensures c.alive && c.connected == 0 ==> c.callback == d.callback && c.input == d.input
  {
  }
}
