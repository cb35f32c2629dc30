/** The docks client against the docks server. What each side has written and the other has not read is a FIFO channel:
    the client's `out` towards the server, the server's `out` towards the client. The server is given all that is in its
    channel at once, the client any part of it. */
module Handshake {
  import opened Wire
  import opened Socks
  import opened SocksClient
  import opened SocksServer

  /** How far the handshake is: whose frame is under way, or where it ended. */
  datatype Phase =
    | Offering
    | Choosing
    | LoggingIn
    | Judging
    | Requesting
    | Connecting
    | Answering(bound: Address, port: uint16)
    | TurnedAway
    | Failed
  {
    function Rank(): nat
    {
      match this
      case Offering => 7
      case Choosing => 6
      case LoggingIn => 5
      case Judging => 4
      case Requesting => 3
      case Connecting => 2
      case Answering(_, _) => 1
      case TurnedAway => 0
      case Failed => 0
    }
  }

  /** The local address of the server's connection to the remote host. */
  predicate Bindable(local: (Address, uint16))
  {
    !local.0.Domain? && WellSized(local.0)
  }

  class Session {
    const client: Client
    const server: Server
    ghost var phase: Phase

    constructor (username: Bytes, password: Bytes, host: Bytes, port: uint16, users: Users)
      requires |username| <= 127 && |password| <= 127 && 1 <= |host| <= 127
      requires 0 !in username && 0 !in password && 0 !in host
      ensures Valid() && phase == Offering && fresh(client) && fresh(server) && fresh(server.replyData)
      ensures client.username == username && client.password == password && client.host == host && client.port == port
      ensures server.users == users
    {
      client := new Client(username, password, host, port);
      server := new Server(users);
      phase := Offering;
      new;
      client.WriteMethods();
      assert client.out == MethodsFrame(username);
    }

    /** The server has no users, or holds the pair that the client offers. */
    ghost predicate Admitted()
    {
      || NoUsers(server.users)
      || (client.username != [] && Holds(server.users, client.username, client.password))
    }

    /** The server's choice from the client's offer. */
    ghost function Choice(): byte
    {
      Chosen(server.users, MethodsFrame(client.username)[2..])
    }

    lemma ChoiceIs()
      ensures Choice() == if NoUsers(server.users) then NO_AUTHENTICATION
                          else if client.username != [] then USERNAME_PASSWORD else NO_ACCEPTABLE_METHODS
    {
    }

    ghost predicate Valid()
      reads this, client, server, server.replyData
    {
      && client.Configured()
      && server.replyData.Length == 261
      && server.input == []
      && (if phase in {Offering, Choosing, LoggingIn, Judging, TurnedAway} then Early() else Admitted() && Late())
    }

    /** Before the request: the client has not sent it. */
    ghost predicate Early()
      requires client.Configured()
      reads this, client, server
    {
      && !client.InReply() && client.alive && client.readOn && client.pending == [] && client.connected == 0
      && !server.connecting && (phase != TurnedAway ==> phase.Choosing? || server.alive)
      && match phase
         case Offering =>
           && client.out == MethodsFrame(client.username) && server.out == [] && client.input == []
           && client.callback == OnReadNegotiation && server.callback == OnReadMethods
         case Choosing =>
           && client.out == [] && server.out != [] && client.input + server.out == [VERSION, Choice()]
           && client.callback == OnReadNegotiation && (server.alive <==> Choice() != NO_ACCEPTABLE_METHODS)
           && (server.alive ==> server.callback == if Choice() == NO_AUTHENTICATION then OnConnectRead else OnAuthRead)
         case LoggingIn =>
           && client.out == AuthFrame(client.username, client.password) && server.out == [] && client.input == []
           && client.callback == OnReadUP && server.callback == OnAuthRead && Choice() == USERNAME_PASSWORD
         case Judging =>
           && client.out == [] && server.out != []
           && client.input + server.out == [AUTH_VERSION, if Admitted() then 0 else 0xFF]
           && client.callback == OnReadUP && server.callback == OnConnectRead && Choice() == USERNAME_PASSWORD
         case _ => client.out == [] && server.out == [] && !Admitted()
    }

    /** From the request on. */
    ghost predicate Late()
      requires client.Configured()
      reads this, client, server, server.replyData
    {
      && client.InReply() && client.Replying()
      && match phase
         case Requesting =>
           && client.out == ConnectFrame(client.host, client.port) && server.out == [] && client.reply == []
           && client.Waiting() && server.alive && server.callback == OnConnectRead && !server.connecting
         case Connecting =>
           && client.out == [] && server.out == [] && client.reply == [] && Asked()
           && server.alive && server.replyData.Length >= 3 && server.replyData[..3] == [VERSION, SUCCEEDED, 0]
         case Answering(bound, port) =>
           && client.out == [] && server.alive && Asked() && Bindable((bound, port))
           && client.reply + server.out == ReplyFrame(bound, port) && (client.reply != [] ==> client.Agrees())
         case _ => client.out == [] && server.out == [] && client.reply == [] && !server.alive
    }

    /** The server has the client's host and port. */
    ghost predicate Asked()
      reads server
    {
      server.connecting && server.remoteHost == Some(Domain(client.host)) && server.remotePort == client.port
    }

    /** All that the client has written is read by the server. */
    method ToServer(reachable: bool)
      requires Valid() && client.out != []
      modifies this, client, server, server.replyData
      ensures Valid() && phase.Rank() < old(phase.Rank())
      ensures phase == match old(phase)
                       case Offering => Choosing
                       case LoggingIn => Judging
                       case _ => if reachable then Connecting else Failed
    {
      if server.callback == OnReadMethods {
        ReadOffer();
      } else if server.callback == OnAuthRead {
        ReadCredentials();
      } else {
        ReadRequest(reachable);
      }
    }

    /** `docks_on_read_methods` on the whole offer. */
    method ReadOffer()
      requires Valid() && phase == Offering
      modifies this, client, server
      ensures Valid() && phase == Choosing
    {
      hide Late, AuthFrame, Holds;
      ghost var frame := client.out;
      server.input := server.input + client.out;
      client.out := [];
      assert server.input == frame && frame[2..][..frame[1]] == frame[2..] && frame[2..][frame[1]..] == [];
      server.OnMethods();
      assert client.input + server.out == [VERSION, Choice()];
      phase := Choosing;
    }

    method ReadCredentials()
      requires Valid() && phase == LoggingIn
      modifies this, client, server
      ensures Valid() && phase == Judging
    {
      hide AuthFrame, Late, Chosen, Choice;
      ChoiceIs();
      server.input := server.input + client.out;
      client.out := [];
      JudgeFrame();
      phase := Judging;
    }

    /** `docks_on_auth_read` on the whole frame. */
    method JudgeFrame()
      requires client.Configured() && client.username != [] && !NoUsers(server.users)
      requires server.alive && server.callback == OnAuthRead
      requires server.input == AuthFrame(client.username, client.password)
      modifies server
      ensures server.alive && server.callback == OnConnectRead && server.input == []
      ensures server.connecting == old(server.connecting)
      ensures server.out == old(server.out) + [AUTH_VERSION, if Admitted() then 0 else 0xFF]
    {
      hide Credentials, AuthFrame;
      CredentialsRoundTrip(client.username, client.password);
      server.OnAuth();
    }

    /** `docks_connect_read` on the whole request. */
    method ReadRequest(reachable: bool)
      requires Valid() && phase == Requesting
      modifies this, client, server, server.replyData
      ensures Valid() && phase == if reachable then Connecting else Failed
    {
      hide Client.Agrees, ConnectFrame, Request;
      ghost var frame := client.out;
      RequestRoundTrip(client.host, client.port);
      server.input := server.input + client.out;
      client.out := [];
      assert server.input == frame && frame[4..][|frame| - 4..] == [];
      server.OnConnect(reachable);
      phase := if reachable then Connecting else Failed;
    }

    /** Some of what the server has written is read by the client. */
    method ToClient(k: nat)
      requires Valid() && 1 <= k <= |server.out|
      modifies this, client, server
      ensures Valid()
      ensures if phase == old(phase) then |server.out| < |old(server.out)| else phase.Rank() < old(phase.Rank())
      ensures phase == old(phase) || (!old(phase).Answering? && phase in {LoggingIn, Requesting, TurnedAway})
    {
      if client.callback == OnReadNegotiation {
        ReadChoice(k);
      } else if client.callback == OnReadUP {
        ReadJudgement(k);
      } else {
        ReadAnswer(k);
      }
    }

    method ReadChoice(k: nat)
      requires Valid() && phase == Choosing && 1 <= k <= |server.out|
      modifies this, client, server
      ensures Valid()
      ensures if phase == Choosing then server.out == old(server.out)[k..]
              else phase in {LoggingIn, Requesting, TurnedAway}
    {
      hide Client.Agrees, Sent;
      client.ConfiguredIsSent();
      ghost var all := client.input + server.out;
      var segment := server.out[..k];
      server.out := server.out[k..];
      assert all == client.input + segment + server.out;
      assert server.out == [] ==> client.input + segment == all;
      client.Deliver(segment);
      if server.out == [] {
        phase := if Choice() == USERNAME_PASSWORD then LoggingIn
                 else if Choice() == NO_AUTHENTICATION then Requesting else TurnedAway;
      }
    }

    method ReadJudgement(k: nat)
      requires Valid() && phase == Judging && 1 <= k <= |server.out|
      modifies this, client, server
      ensures Valid()
      ensures if phase == Judging then server.out == old(server.out)[k..] else phase in {Requesting, TurnedAway}
    {
      hide Client.Agrees, Sent;
      client.ConfiguredIsSent();
      ghost var all := client.input + server.out;
      var segment := server.out[..k];
      server.out := server.out[k..];
      assert all == client.input + segment + server.out;
      assert server.out == [] ==> client.input + segment == all;
      client.Deliver(segment);
      if server.out == [] {
        phase := if Admitted() then Requesting else TurnedAway;
      }
    }

    method ReadAnswer(k: nat)
      requires Valid() && phase.Answering? && 1 <= k <= |server.out|
      modifies this, client, server
      ensures Valid() && phase == old(phase) && server.out == old(server.out)[k..]
    {
      hide Client.Agrees, Sent;
      client.ConfiguredIsSent();
      ghost var all := client.reply + server.out;
      var segment := server.out[..k];
      server.out := server.out[k..];
      assert all == client.reply + segment + server.out;
      assert |client.reply + segment| >= 5 ==> (client.reply + segment)[3] == all[3] == Wired(phase.bound)[0];
      client.Deliver(segment);
    }

    /** Connecting to the remote host ends: with the local address of the connection, or without. */
    method RemoteAnswers(local: Option<(Address, uint16)>)
      requires Valid() && phase == Connecting && (local.Some? ==> Bindable(local.value))
      modifies this, client, server, server.replyData
      ensures Valid() && phase == if local.Some? then Answering(local.value.0, local.value.1) else Failed
    {
      hide Client.Replying, Client.Configured, Early, Choice, Holds, NoUsers, ReplyFrame, ConnectFrame;
      if local == None {
        server.RemoteFailed();
      } else {
        Reply(local.value.0, local.value.1);
        assert client.reply + server.out == server.out;
      }
      phase := if local.Some? then Answering(local.value.0, local.value.1) else Failed;
    }

    /** `send_client_auth_response`, as a frame. */
    method Reply(address: Address, port: uint16)
      requires server.alive && server.out == [] && server.replyData.Length == 261 && Bindable((address, port))
      requires server.replyData[..3] == [VERSION, SUCCEEDED, 0]
      modifies server`out, server`alive, server.replyData
      ensures server.alive && server.out == ReplyFrame(address, port)
    {
      server.SendReply(Some((address, port)));
      assert [VERSION, SUCCEEDED, 0] + (Wired(address) + Short(port)) ==
             [VERSION, SUCCEEDED, 0] + Wired(address) + Short(port);
    }

    /** At most one of the two channels holds bytes. */
    lemma OneChannelAtATime()
      requires Valid()
      ensures client.out == [] || server.out == []
    {
    }

    /** The client has sent its request only if it is admitted; a client that is turned away is not. */
    lemma RequestOnlyIfAdmitted()
      requires Valid()
      ensures client.InReply() ==> Admitted()
      ensures phase == TurnedAway ==> !Admitted()
    {
    }

    /** The client's `on_server_connect` was called just when the whole reply has arrived. Then the server has the
        client's host and port, the client has the server's address and port, and no byte is left anywhere. */
    lemma Agreement()
      requires Valid()
      ensures client.connected <= 1
      ensures client.connected == 1 <==> phase.Answering? && server.out == []
      ensures client.connected == 1 ==>
                && Admitted() && Asked() && client.alive && server.alive
                && client.bindHost == Some(phase.bound) && client.bindPort == Some(phase.port)
                && client.input == client.pending == client.out == server.input == server.out == []
    {
      hide AddressFront, ConnectFrame, ReplyFrame;
      if phase.Answering? {
        var reply := ReplyFrame(phase.bound, phase.port);
        if server.out == [] {
          ReplyRoundTrip(phase.bound, phase.port, []);
          assert client.reply == reply + [] && reply[|reply|..] == [];
        } else {
          ReplyPrefixUndecided(phase.bound, phase.port, |client.reply|);
          assert client.reply == reply[..|client.reply|];
        }
      }
    }

    /** A whole run: every order of deliveries there is, with the server's bytes cut anywhere. It ends, and the client
        gets through exactly when it is admitted and the server reaches the remote host. */
    method Run(reachable: bool, local: Option<(Address, uint16)>)
      requires Valid() && phase == Offering && (local.Some? ==> Bindable(local.value))
      modifies this, client, server, server.replyData
      ensures Valid() && client.out == server.out == []
      ensures client.connected == if Admitted() && reachable && local.Some? then 1 else 0
      ensures client.connected == 1 ==>
                && server.remoteHost == Some(Domain(client.host)) && server.remotePort == client.port
                && client.bindHost == Some(local.value.0) && client.bindPort == Some(local.value.1 as nat)
      ensures client.InReply() <==> Admitted()
    {
      hide Early, Late, Admitted, Asked;
      var waiting := true;
      while client.out != [] || server.out != [] || (waiting && server.connecting && server.alive)
        invariant Valid()
        invariant phase == Connecting ==> reachable
        invariant !waiting ==> phase.Answering? || phase == Failed
        invariant phase == Failed ==> !reachable || local == None
        invariant phase.Answering? ==> !waiting && reachable && local == Some((phase.bound, phase.port))
        decreases phase.Rank(), |server.out|
      {
        OneChannelAtATime();
        Moving();
        if client.out != [] {
          ToServer(reachable);
        } else if server.out != [] {
          var k :| 1 <= k <= |server.out|;
          ToClient(k);
        } else {
          RemoteAnswers(local);
          waiting := false;
        }
      }
      Settled();
      Agreement();
    }

    /** Which phases the channels and the pending connection allow. */
    lemma Moving()
      requires Valid()
      ensures client.out != [] ==> phase in {Offering, LoggingIn, Requesting}
      ensures client.out == server.out == [] && server.connecting && server.alive ==>
                phase == Connecting || phase.Answering?
    {
    }

    /** When nothing is under way, the handshake is over. */
    lemma Settled()
      requires Valid() && client.out == server.out == []
      ensures phase in {Connecting, TurnedAway, Failed} || phase.Answering?
      ensures phase == Connecting ==> server.connecting && server.alive
      ensures client.InReply() <==> Admitted()
      ensures Admitted() <==> phase != TurnedAway
      ensures phase.Answering? ==> Asked()
    {
    }
  }
}
