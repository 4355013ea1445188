/**
 The server object under a run of events: its list, its sockets and their buffers are at all times what
 `ServerRuns` says.
 */
module ServerReplay {
  import opened Common
  import opened Fifo
  import opened SocketCount
  import opened SecSocket
  import opened ClientList
  import opened WiFiServer
  import opened ServerRuns

  /** All clients have the protocol of the server's socket. */
  ghost predicate SameProtocol(server: WiFiServerClass)
    reads server, server.socket, server.clients
  {
    forall c :: c in server.clients ==> c.protocol == server.socket.protocol
  }

  /** `outs[k]` is what the sketch read from the k-th listed client, and `qs[k]` its buffer: both exactly what its
      flows account for. */
  ghost predicate Account(conns: seq<Conn>, outs: seq<seq<byte>>, qs: seq<seq<byte>>) {
    && |outs| == |qs| == |conns|
    && forall k :: 0 <= k < |conns| ==> Explains(RX_BUFFER_SIZE, conns[k].flows, outs[k], qs[k])
  }

  lemma AccountConnect(conns: seq<Conn>, outs: seq<seq<byte>>, qs: seq<seq<byte>>, h: Handle)
    requires Account(conns, outs, qs)
    ensures Account(conns + [Conn(h, [])], outs + [[]], qs + [[]])
  {
    var none: seq<Flow<byte>> := [];
    assert Explains(RX_BUFFER_SIZE, none, [], []);
  }

  lemma AccountErase(conns: seq<Conn>, outs: seq<seq<byte>>, qs: seq<seq<byte>>, i: nat)
    requires Account(conns, outs, qs) && i < |conns|
    ensures Account(Erase(conns, i), Erase(outs, i), Erase(qs, i))
  {
    forall k | 0 <= k < |conns| - 1
      ensures Explains(RX_BUFFER_SIZE, Erase(conns, i)[k].flows, Erase(outs, i)[k], Erase(qs, i)[k])
    {
      var j := if k < i then k else k + 1;
      assert Erase(conns, i)[k] == conns[j] && Erase(outs, i)[k] == outs[j] && Erase(qs, i)[k] == qs[j];
    }
  }

  lemma AccountServe(conns: seq<Conn>, outs: seq<seq<byte>>, qs: seq<seq<byte>>, i: nat, flow: Flow<byte>,
                     got: seq<byte>, q: seq<byte>)
    requires Account(conns, outs, qs) && i < |conns| && |qs[i]| <= RX_BUFFER_SIZE
    requires Serves(RX_BUFFER_SIZE, flow, qs[i], got, q)
    ensures Account(Happens(conns, i, flow), outs[i := outs[i] + got], qs[i := q])
  {
    var flows := conns[i].flows;
    assert (flows + [flow])[..|flows|] == flows && (flows + [flow])[..|flows| + 1] == flows + [flow];
    ServeNext(RX_BUFFER_SIZE, flows + [flow], |flows|, outs[i], qs[i], got, q);
  }

  /** One queue serves one flow, the others stay. */
  ghost predicate ServesOne(qs: seq<seq<byte>>, i: nat, flow: Flow<byte>, got: seq<byte>, qs': seq<seq<byte>>)
    requires i < |qs|
  {
    && |qs'| == |qs| && |qs[i]| <= RX_BUFFER_SIZE
    && Serves(RX_BUFFER_SIZE, flow, qs[i], got, qs'[i]) && qs' == qs[i := qs'[i]]
  }

  /** What one event does to the buffers of the clients `hs`, `got` being what the sketch reads in it. */
  ghost predicate QueuesMove(protocol: Protocol, e: ServerEvent, hs: seq<Handle>, qs: seq<seq<byte>>,
                             got: seq<byte>, qs': seq<seq<byte>>)
    requires |qs| == |hs|
  {
    match e
    case Connecting(acceptRet, _, _) => qs' == if acceptRet == SUCCESS then qs + [[]] else qs
    case Leaving(h, _, _, _) =>
      var i := First(hs, h);
      qs' == if i < |hs| then Erase(qs, i) else qs
    case Arriving(h, recvRet, pending) =>
      var i := First(hs, h);
      if i < |hs| then ServesOne(qs, i, Incoming(protocol, recvRet, pending), [], qs') else qs' == qs
    case Reading(i, len) => if i < |hs| then ServesOne(qs, i, Take(len), got, qs') else qs' == qs
    case _ => qs' == qs
  }

  /** The books after one event. */
  function OutsAfter(e: ServerEvent, hs: seq<Handle>, outs: seq<seq<byte>>, got: seq<byte>): seq<seq<byte>>
    requires |outs| == |hs|
  {
    match e
    case Connecting(acceptRet, _, _) => if acceptRet == SUCCESS then outs + [[]] else outs
    case Leaving(h, _, _, _) =>
      var i := First(hs, h);
      if i < |hs| then Erase(outs, i) else outs
    case Reading(i, _) => if i < |hs| then outs[i := outs[i] + got] else outs
    case _ => outs
  }

  lemma AccountAfter(protocol: Protocol, e: ServerEvent, conns: seq<Conn>, outs: seq<seq<byte>>, qs: seq<seq<byte>>,
                     got: seq<byte>, qs': seq<seq<byte>>)
    requires Account(conns, outs, qs) && QueuesMove(protocol, e, HandlesOf(conns), qs, got, qs')
    ensures Account(ConnsAfter(protocol, conns, e), OutsAfter(e, HandlesOf(conns), outs, got), qs')
  {
    var hs := HandlesOf(conns);
    match e
    case Connecting(_, h, _) =>
      AccountConnect(conns, outs, qs, h);
    case Leaving(h, _, _, _) =>
      if First(hs, h) < |hs| {
        AccountErase(conns, outs, qs, First(hs, h));
      }
    case Arriving(h, recvRet, pending) =>
      var i := First(hs, h);
      if i < |hs| {
        AccountServe(conns, outs, qs, i, Incoming(protocol, recvRet, pending), [], qs'[i]);
        assert outs[i] + [] == outs[i] && outs[i := outs[i]] == outs;
      }
    case Reading(i, len) =>
      if i < |hs| {
        AccountServe(conns, outs, qs, i, Take(len), got, qs'[i]);
      }
    case _ =>
  }

  /** A call by some other socket object. */
  method CallElsewhere(globals: SocketGlobals, call: Call)
    requires Possible(globals.View(), call)
    modifies globals
    ensures globals.View() == Next(old(globals.View()), call)
  {
    var socket := new Socket(globals);
    match call
    case Begin(known, initRet, createRet, handle) =>
      socket.Begin(if known then Tcp else NotSet, initRet, createRet, handle);
    case Accept(listener, acceptRet, handle) =>
      var client := new Socket(globals);
      socket.handle := listener;
      var _ := socket.Accept(client, acceptRet, handle, 0);
    case End(handle, disconnectRet, deleteRet, deinitRet) =>
      socket.handle := handle;
      socket.End(disconnectRet, deleteRet, deinitRet);
  }

  /** The sketch stops the i-th client; the list does not notice. */
  method StopClient(server: WiFiServerClass, i: nat, client: Socket,
                    disconnectRet: Result, deleteRet: Result, deinitRet: Result)
    requires server.Valid() && i < |server.clients| && client == server.clients[i]
    requires Possible(server.socket.globals.View(), End(server.Handles()[i], disconnectRet, deleteRet, deinitRet))
    modifies server.socket.globals, client`status, client`lastError
    ensures server.Valid() && server.Handles() == old(server.Handles()) && server.Queues() == old(server.Queues())
    ensures server.socket.globals.View()
         == Next(old(server.socket.globals.View()), End(server.Handles()[i], disconnectRet, deleteRet, deinitRet))
  {
    assert client in server.clients;
    client.End(disconnectRet, deleteRet, deinitRet);
  }

  /** The sketch reads up to `len` bytes from the i-th client. */
  method ReadClient(server: WiFiServerClass, i: nat, len: nat) returns (got: seq<byte>)
    requires server.Valid() && i < |server.clients|
    modifies server.clients[i].rx
    ensures server.Valid() && server.Handles() == old(server.Handles())
    ensures ServesOne(old(server.Queues()), i, Take(len), got, server.Queues())
  {
    var client := server.clients[i];
    assert client in server.clients;
    var data := new byte[len](_ => 0);
    var n := client.Receive(data, len);
    got := data[..n];
    assert got + client.rx.q == old(client.rx.q);
  }

  method StopAny(server: WiFiServerClass, i: nat, disconnectRet: Result, deleteRet: Result, deinitRet: Result)
    requires server.Valid() && SameProtocol(server)
    requires i < |server.clients| ==>
               Possible(server.socket.globals.View(), End(server.Handles()[i], disconnectRet, deleteRet, deinitRet))
    modifies server.socket.globals, set c | c in server.clients :: c`status, set c | c in server.clients :: c`lastError
    ensures server.Valid() && SameProtocol(server)
    ensures server.Handles() == old(server.Handles()) && server.Queues() == old(server.Queues())
    ensures server.socket.globals.View()
         == if i < |server.clients|
            then Next(old(server.socket.globals.View()), End(server.Handles()[i], disconnectRet, deleteRet, deinitRet))
            else old(server.socket.globals.View())
  {
    if i < |server.clients| {
      var client := server.clients[i];
      assert client in server.clients;
      StopClient(server, i, client, disconnectRet, deleteRet, deinitRet);
    }
  }

  method ReadAny(server: WiFiServerClass, i: nat, len: nat) returns (got: seq<byte>)
    requires server.Valid()
    modifies set c | c in server.clients :: c.rx
    ensures server.Valid() && server.Handles() == old(server.Handles())
    ensures if i < |server.clients| then ServesOne(old(server.Queues()), i, Take(len), got, server.Queues())
            else server.Queues() == old(server.Queues())
  {
    got := [];
    if i < |server.clients| {
      got := ReadClient(server, i, len);
    }
  }

  /** Data arrives: if some client has the handle, the first one takes what fits. */
  method Deliver(server: WiFiServerClass, h: Handle, recvRet: Result, pending: seq<byte>)
    requires server.Valid() && SameProtocol(server)
    modifies set c | c in server.clients && c.handle == h :: c`status,
             set c | c in server.clients && c.handle == h :: c`lastError,
             set c | c in server.clients && c.handle == h :: c.rx
    ensures server.Valid() && server.Handles() == old(server.Handles())
    ensures var i := First(old(server.Handles()), h);
            if i < |server.clients|
            then ServesOne(old(server.Queues()), i, Incoming(server.socket.protocol, recvRet, pending), [], server.Queues())
            else server.Queues() == old(server.Queues())
  {
    ghost var i, qs := First(server.Handles(), h), server.Queues();
    assert forall k :: 0 <= k < |server.clients| ==> server.clients[k].handle == server.Handles()[k];
    assert forall k :: 0 <= k < |server.clients| ==> (server.IsFirst(k, h) <==> k == i);
    var taken := server.ReceiveCallback(h, recvRet, pending);
    forall k | 0 <= k < |server.clients| && k != i
      ensures server.Queues()[k] == qs[k]
    {
      assert !old(server.IsFirst(k, h));
    }
    if i < |server.clients| {
      assert server.clients[i].Received(recvRet, pending, taken);
      TakenIsOffer(server.socket.protocol, recvRet, pending, qs[i], taken);
    }
  }

  lemma TakenIsOffer(protocol: Protocol, recvRet: Result, pending: seq<byte>, q: seq<byte>, taken: seq<byte>)
    requires |q| <= RX_BUFFER_SIZE
    requires taken == if protocol == NotSet || recvRet != SUCCESS then [] else pending[..Min(|pending|, RX_BUFFER_SIZE - |q|)]
    ensures Serves(RX_BUFFER_SIZE, Incoming(protocol, recvRet, pending), q, [], q + taken)
  {
  }

  method Connected(server: WiFiServerClass, acceptRet: Result, h: Handle, peerIp: nat)
    requires server.Valid() && SameProtocol(server)
    requires Possible(server.socket.globals.View(), Accept(server.socket.handle, acceptRet, h))
    modifies server`clients, server.socket`status, server.socket`lastError, server.socket.globals
    ensures server.Valid() && SameProtocol(server)
    ensures forall c :: c in server.clients ==> c in old(server.clients) || (fresh(c) && fresh(c.rx))
    ensures server.Handles() == old(server.Handles()) + if acceptRet == SUCCESS then [h] else []
    ensures server.Queues() == old(server.Queues()) + if acceptRet == SUCCESS then [[]] else []
    ensures server.socket.globals.View()
         == Next(old(server.socket.globals.View()), Accept(server.socket.handle, acceptRet, h))
  {
    ghost var before := server.clients;
    var ret := server.ConnectionCallback(acceptRet, h, peerIp);
    if ret == SUCCESS {
      assert server.clients == before + [server.clients[|before|]];
    }
  }

  method Left(server: WiFiServerClass, h: Handle, disconnectRet: Result, deleteRet: Result, deinitRet: Result)
    requires server.Valid() && SameProtocol(server) && SearchEnds(server.Handles(), h)
    requires h in server.Handles() ==> Possible(server.socket.globals.View(), End(h, disconnectRet, deleteRet, deinitRet))
    modifies server`clients, server.socket.globals,
             set c | c in server.clients && c.handle == h :: c`status,
             set c | c in server.clients && c.handle == h :: c`lastError
    ensures server.Valid() && SameProtocol(server)
    ensures forall c :: c in server.clients ==> c in old(server.clients)
    ensures server.Handles() == Without(old(server.Handles()), h)
    ensures var i := First(old(server.Handles()), h);
            server.Queues() == if i < |old(server.Handles())| then Erase(old(server.Queues()), i) else old(server.Queues())
    ensures server.socket.globals.View()
         == if h in old(server.Handles())
            then Next(old(server.socket.globals.View()), End(h, disconnectRet, deleteRet, deinitRet))
            else old(server.socket.globals.View())
  {
    server.DisconnectionCallback(h, disconnectRet, deleteRet, deinitRet);
  }

  /** What one event does to the server. */
  method HandleEvent(server: WiFiServerClass, e: ServerEvent) returns (got: seq<byte>)
    requires server.Valid() && SameProtocol(server)
    requires e.Leaving? ==> SearchEnds(server.Handles(), e.handle)
    requires var call := CallOf(server.socket.handle, server.Handles(), e);
             call.Some? ==> Possible(server.socket.globals.View(), call.value)
    modifies server`clients, server.socket`status, server.socket`lastError, server.socket.globals,
             set c | c in server.clients :: c`status, set c | c in server.clients :: c`lastError,
             set c | c in server.clients :: c.rx
    ensures server.Valid() && SameProtocol(server)
    ensures forall c :: c in server.clients ==> c in old(server.clients) || (fresh(c) && fresh(c.rx))
    ensures server.Handles() == ListAfter(old(server.Handles()), e)
    ensures QueuesMove(server.socket.protocol, e, old(server.Handles()), old(server.Queues()), got, server.Queues())
    ensures server.socket.globals.View()
         == NetAfter(old(server.socket.globals.View()), CallOf(server.socket.handle, old(server.Handles()), e))
  {
    got := [];
    match e
    case Connecting(acceptRet, h, peerIp) =>
      Connected(server, acceptRet, h, peerIp);
    case Leaving(h, disconnectRet, deleteRet, deinitRet) =>
      Left(server, h, disconnectRet, deleteRet, deinitRet);
    case Arriving(h, recvRet, pending) =>
      Deliver(server, h, recvRet, pending);
    case Stopping(k, disconnectRet, deleteRet, deinitRet) =>
      StopAny(server, k, disconnectRet, deleteRet, deinitRet);
    case Reading(k, len) =>
      got := ReadAny(server, k, len);
    case Elsewhere(call) =>
      CallElsewhere(server.socket.globals, call);
  }

  /** What a run leaves behind: the list, the books with the buffers, and the state of the socket library. */
  ghost predicate RunExplains(protocol: Protocol, own: Handle, net: Net, es: seq<ServerEvent>,
                              hs: seq<Handle>, outs: seq<seq<byte>>, qs: seq<seq<byte>>, now: Net) {
    && hs == HandlesOf(Conns(protocol, es)) && Account(Conns(protocol, es), outs, qs)
    && now == Outcome(own, Start(net), es).net
  }

  lemma RunNext(protocol: Protocol, own: Handle, net: Net, es: seq<ServerEvent>, k: nat, hs: seq<Handle>,
                outs: seq<seq<byte>>, qs: seq<seq<byte>>, now: Net, got: seq<byte>, qs': seq<seq<byte>>)
    requires k < |es| && LegalRun(own, Start(net), es)
    requires RunExplains(protocol, own, net, es[..k], hs, outs, qs, now)
    requires QueuesMove(protocol, es[k], hs, qs, got, qs')
    ensures RunExplains(protocol, own, net, es[..k + 1], ListAfter(hs, es[k]), OutsAfter(es[k], hs, outs, got), qs',
                        NetAfter(now, CallOf(own, hs, es[k])))
  {
    var conns := Conns(protocol, es[..k]);
    assert es[..k + 1][..k] == es[..k];
    RunTake(own, net, es, k);
    ConnsAreListed(protocol, es[..k]);
    OutcomeNext(own, Start(net), es, k);
    AccountAfter(protocol, es[k], conns, outs, qs, got, qs');
    HandlesAfter(protocol, conns, es[k]);
  }

  lemma RunIsLegal(protocol: Protocol, own: Handle, net: Net, es: seq<ServerEvent>, k: nat, hs: seq<Handle>,
                   outs: seq<seq<byte>>, qs: seq<seq<byte>>, now: Net)
    requires k < |es| && LegalRun(own, Start(net), es)
    requires RunExplains(protocol, own, net, es[..k], hs, outs, qs, now)
    ensures hs == Listed(es[..k])
    ensures var call := CallOf(own, hs, es[k]);
            call.Some? ==> Possible(now, call.value)
  {
    RunTake(own, net, es, k);
    ConnsAreListed(protocol, es[..k]);
  }

  /** Any run of events, of any length, keeps the list of a new server what `Clients` describes, makes exactly the calls
      of that run on the socket library, and leaves each listed client's buffer, and what was read from
      it, exactly what its flows account for. */
  method Replay(server: WiFiServerClass, es: seq<ServerEvent>) returns (outs: seq<seq<byte>>)
    requires server.Valid() && server.clients == []
    requires LegalRun(server.socket.handle, Start(server.socket.globals.View()), es)
    requires forall k :: 0 <= k < |es| && es[k].Leaving? ==> SearchEnds(Listed(es[..k]), es[k].handle)
    modifies server`clients, server.socket`status, server.socket`lastError, server.socket.globals
    ensures server.Valid() && server.Handles() == Clients(AsCallbacks(es))
    ensures RunExplains(server.socket.protocol, server.socket.handle, old(server.socket.globals.View()), es,
                        server.Handles(), outs, server.Queues(), server.socket.globals.View())
  {
    ghost var own, protocol, net := server.socket.handle, server.socket.protocol, server.socket.globals.View();
    outs := [];
    for k := 0 to |es|
      invariant Explained(server, own, protocol, net, es[..k], outs)
      invariant forall c :: c in server.clients ==> fresh(c) && fresh(c.rx)
    {
      outs := ReplayNext(server, own, protocol, net, es, k, outs);
    }
    assert es[..|es|] == es;
    ConnsAreListed(protocol, es);
  }

  ghost predicate Explained(server: WiFiServerClass, own: Handle, protocol: Protocol, net: Net,
                            es: seq<ServerEvent>, outs: seq<seq<byte>>)
    reads server, server.socket, server.socket.globals, server.clients, set c | c in server.clients :: c.rx
  {
    && server.Valid() && SameProtocol(server)
    && server.socket.handle == own && server.socket.protocol == protocol
    && RunExplains(protocol, own, net, es, server.Handles(), outs, server.Queues(), server.socket.globals.View())
  }

  /** One event of a run, with the books kept. */
  method ReplayNext(server: WiFiServerClass, ghost own: Handle, ghost protocol: Protocol, ghost net: Net,
                    es: seq<ServerEvent>, k: nat, outs: seq<seq<byte>>)
    returns (outs': seq<seq<byte>>)
    requires k < |es| && LegalRun(own, Start(net), es)
    requires es[k].Leaving? ==> SearchEnds(Listed(es[..k]), es[k].handle)
    requires Explained(server, own, protocol, net, es[..k], outs)
    modifies server`clients, server.socket`status, server.socket`lastError, server.socket.globals,
             set c | c in server.clients :: c`status, set c | c in server.clients :: c`lastError,
             set c | c in server.clients :: c.rx
    ensures Explained(server, own, protocol, net, es[..k + 1], outs')
    ensures forall c :: c in server.clients ==> c in old(server.clients) || (fresh(c) && fresh(c.rx))
  {
    ghost var qs, now := server.Queues(), server.socket.globals.View();
    var hs := Handles(server);
    RunIsLegal(protocol, own, net, es, k, hs, outs, qs, now);
    var got := HandleEvent(server, es[k]);
    RunNext(protocol, own, net, es, k, hs, outs, qs, now, got, server.Queues());
    outs' := OutsAfter(es[k], hs, outs, got);
  }

  /** The handles of the listed clients, read off the list. */
  method Handles(server: WiFiServerClass) returns (hs: seq<Handle>)
    ensures hs == server.Handles()
  {
    hs := [];
    for k := 0 to |server.clients|
      invariant hs == server.Handles()[..k]
    {
      hs := hs + [server.clients[k].handle];
    }
  }

  lemma RunTake(own: Handle, net: Net, es: seq<ServerEvent>, k: nat)
    requires k < |es| && LegalRun(own, Start(net), es)
    ensures LegalEvent(own, Outcome(own, Start(net), es[..k]), es[k])
    ensures Outcome(own, Start(net), es[..k]).listed == Listed(es[..k])
  {
    LegalRunTake(own, Start(net), es, k);
    OutcomeIsSane(own, net, es[..k]);
  }

  lemma LegalRunTake(own: Handle, s: ServerState, es: seq<ServerEvent>, n: nat)
    requires n <= |es| && LegalRun(own, s, es)
    ensures LegalRun(own, s, es[..n])
  {
    forall k | 0 <= k < n
      ensures LegalEvent(own, Outcome(own, s, es[..n][..k]), es[..n][k])
    {
      assert es[..n][..k] == es[..k];
    }
  }

  /** Put together: in every legal run in which clients go only by disconnecting, what the sketch read from a listed
      client, followed by what waits in its buffer, is exactly what arrived for its handle since it was accepted,
      as far as the 4096 bytes of the buffer had room for it on arrival. */
  lemma EachClientHasItsBytes(protocol: Protocol, own: Handle, net: Net, es: seq<ServerEvent>, hs: seq<Handle>,
                              outs: seq<seq<byte>>, qs: seq<seq<byte>>, now: Net)
    requires LegalRun(own, Start(net), es) && Undisturbed(own, Start(net), es)
    requires RunExplains(protocol, own, net, es, hs, outs, qs, now)
    ensures |outs| == |qs| == |hs| && NoRepeats(hs)
    ensures forall k :: 0 <= k < |hs| ==> outs[k] + qs[k] == Accepted(RX_BUFFER_SIZE, FlowsSince(protocol, es, hs[k]))
  {
    UndisturbedRunsHaveFreshHandles(own, net, es);
    EachClientGetsItsOwn(protocol, es);
    ConnsAreListed(protocol, es);
    NoDuplicates(AsCallbacks(es));
    var conns := Conns(protocol, es);
    forall k | 0 <= k < |hs|
      ensures outs[k] + qs[k] == Accepted(RX_BUFFER_SIZE, FlowsSince(protocol, es, hs[k]))
    {
      assert hs[k] == conns[k].handle && Explains(RX_BUFFER_SIZE, conns[k].flows, outs[k], qs[k]);
    }
  }

  /** The starved client: if its handle belonged to a stopped client before, nothing that arrives ever reaches it. */
  lemma StarvedClient(protocol: Protocol, own: Handle, net: Net, h: Handle, more: seq<ServerEvent>, hs: seq<Handle>,
                      outs: seq<seq<byte>>, qs: seq<seq<byte>>, now: Net)
    requires forall e :: e in more ==> e.Arriving? && e.handle == h
    requires RunExplains(protocol, own, net, StopAndReuse(h) + more, hs, outs, qs, now)
    ensures hs == [h, h] && |qs| == |outs| == 2 && qs[1] == [] && outs[1] == []
  {
    NewClientStarves(protocol, h, more);
    var conns := Conns(protocol, StopAndReuse(h) + more);
    assert hs == HandlesOf(conns) && conns[1].flows == [];
    assert Explains(RX_BUFFER_SIZE, conns[1].flows, outs[1], qs[1]);
    assert |outs[1] + qs[1]| == 0;
  }
}
