/**
 Runs of a TCP server: callbacks of the stack, the sketch reading from clients and stopping them, and
 calls of other sockets, in any order and with any answers of the stack.

 The list and the socket library do not always agree.  A sketch that stops a client deletes its
 socket, but the server still lists it, and the stack may hand the same handle out again.
 */
module ServerRuns {
  import opened Common
  import opened Fifo
  import opened SocketCount
  import opened SecSocket
  import opened ClientList

  /** Clients are stopped and read by their place in the list.  `Elsewhere` is any call by any other socket object:
      another server or client, or a copy of a client that is listed or was. */
  datatype ServerEvent =
    | Connecting(acceptRet: Result, handle: Handle, peerIp: nat)
    | Leaving(handle: Handle, disconnectRet: Result, deleteRet: Result, deinitRet: Result)
    | Arriving(handle: Handle, recvRet: Result, pending: seq<byte>)
    | Stopping(client: nat, disconnectRet: Result, deleteRet: Result, deinitRet: Result)
    | Reading(client: nat, len: nat)
    | Elsewhere(call: Call)

  /** What an event means for the list; most do not touch it. */
  function AsCallback(e: ServerEvent): Callback<Handle> {
    match e
    case Connecting(acceptRet, h, _) => Connect(acceptRet == SUCCESS, h)
    case Leaving(h, _, _, _) => Disconnect(h)
    case _ => Connect(false, 0)
  }

  function AsCallbacks(es: seq<ServerEvent>): (cs: seq<Callback<Handle>>)
    ensures |cs| == |es|
  {
    seq(|es|, k requires 0 <= k < |es| => AsCallback(es[k]))
  }

  function Listed(es: seq<ServerEvent>): seq<Handle> {
    Clients(AsCallbacks(es))
  }

  /** The list without the first entry that has the handle. */
  function Without(hs: seq<Handle>, h: Handle): seq<Handle> {
    var i := First(hs, h);
    if i < |hs| then Erase(hs, i) else hs
  }

  /** The list after one more event. */
  function ListAfter(hs: seq<Handle>, e: ServerEvent): seq<Handle> {
    match e
    case Connecting(acceptRet, h, _) => if acceptRet == SUCCESS then hs + [h] else hs
    case Leaving(h, _, _, _) => Without(hs, h)
    case _ => hs
  }

  lemma ListedNext(es: seq<ServerEvent>, k: nat)
    requires k < |es|
    ensures Listed(es[..k + 1]) == ListAfter(Listed(es[..k]), es[k])
  {
    var cs := AsCallbacks(es[..k + 1]);
    assert cs[..k] == AsCallbacks(es[..k]);
    if es[k].Leaving? {
      RemoveFirstIsErase(Listed(es[..k]), es[k].handle);
    }
  }

  /** The call on the socket library an event leads to, with the given handles in the list. */
  function CallOf(own: Handle, hs: seq<Handle>, e: ServerEvent): Option<Call> {
    match e
    case Connecting(acceptRet, h, _) => Some(Accept(own, acceptRet, h))
    case Leaving(h, disconnectRet, deleteRet, deinitRet) =>
      if h in hs then Some(End(h, disconnectRet, deleteRet, deinitRet)) else None
    case Stopping(i, disconnectRet, deleteRet, deinitRet) =>
      if i < |hs| then Some(End(hs[i], disconnectRet, deleteRet, deinitRet)) else None
    case Elsewhere(call) => Some(call)
    case _ => None
  }

  function NetAfter(net: Net, call: Option<Call>): Net {
    if call.Some? then Next(net, call.value) else net
  }

  /** The socket library, the list, and the sockets that are the server's: those it accepted and nobody has
      deleted since. */
  datatype ServerState = ServerState(net: Net, listed: seq<Handle>, ours: set<Handle>)

  function Start(net: Net): ServerState {
    ServerState(net, [], {})
  }

  function OursAfter(ours: set<Handle>, call: Option<Call>, e: ServerEvent): set<Handle> {
    if call.Some? && Deletes(call.value) then ours - {call.value.handle}
    else if e.Connecting? && e.acceptRet == SUCCESS then ours + {e.handle}
    else ours
  }

  function After(own: Handle, s: ServerState, e: ServerEvent): ServerState {
    var call := CallOf(own, s.listed, e);
    ServerState(NetAfter(s.net, call), ListAfter(s.listed, e), OursAfter(s.ours, call, e))
  }

  function Outcome(own: Handle, s: ServerState, es: seq<ServerEvent>): ServerState {
    if es == [] then s else After(own, Outcome(own, s, es[..|es| - 1]), es[|es| - 1])
  }

  /** The answers of the socket library keep its contract. */
  ghost predicate LegalEvent(own: Handle, s: ServerState, e: ServerEvent) {
    var call := CallOf(own, s.listed, e);
    call.Some? ==> Possible(s.net, call.value)
  }

  ghost predicate LegalRun(own: Handle, s: ServerState, es: seq<ServerEvent>) {
    forall k :: 0 <= k < |es| ==> LegalEvent(own, Outcome(own, s, es[..k]), es[k])
  }

  /** A socket of the server is deleted other than by the callback that takes it off the list. */
  predicate Disturbs(own: Handle, s: ServerState, e: ServerEvent) {
    && (e.Stopping? || e.Elsewhere?)
    && var call := CallOf(own, s.listed, e);
       call.Some? && Deletes(call.value) && call.value.handle in s.ours
  }

  predicate Undisturbed(own: Handle, s: ServerState, es: seq<ServerEvent>) {
    forall k :: 0 <= k < |es| ==> !Disturbs(own, Outcome(own, s, es[..k]), es[k])
  }

  lemma OutcomeNext(own: Handle, s: ServerState, es: seq<ServerEvent>, k: nat)
    requires k < |es|
    ensures Outcome(own, s, es[..k + 1]) == After(own, Outcome(own, s, es[..k]), es[k])
  {
    assert es[..k + 1][..k] == es[..k];
  }

  lemma RunPrefix(own: Handle, s: ServerState, es: seq<ServerEvent>)
    requires es != []
    ensures var init := es[..|es| - 1];
            && (LegalRun(own, s, es) ==> LegalRun(own, s, init) && LegalEvent(own, Outcome(own, s, init), es[|es| - 1]))
            && (Undisturbed(own, s, es) ==> Undisturbed(own, s, init) && !Disturbs(own, Outcome(own, s, init), es[|es| - 1]))
  {
    var init := es[..|es| - 1];
    forall k | 0 <= k < |init|
      ensures LegalRun(own, s, es) ==> LegalEvent(own, Outcome(own, s, init[..k]), init[k])
      ensures Undisturbed(own, s, es) ==> !Disturbs(own, Outcome(own, s, init[..k]), init[k])
    {
      assert init[..k] == es[..k] && init[k] == es[k];
    }
  }

  lemma {:induction false} OutcomePrepend(own: Handle, s: ServerState, e: ServerEvent, es: seq<ServerEvent>)
    ensures Outcome(own, s, [e] + es) == Outcome(own, After(own, s, e), es)
  {
    var all := [e] + es;
    if es == [] {
      assert all == [e] && all[..0] == [];
      assert Outcome(own, s, all) == After(own, Outcome(own, s, []), e);
    } else {
      assert all[..|all| - 1] == [e] + es[..|es| - 1];
      OutcomePrepend(own, s, e, es[..|es| - 1]);
    }
  }

  lemma RunPrepend(own: Handle, s: ServerState, e: ServerEvent, es: seq<ServerEvent>)
    requires LegalEvent(own, s, e) && LegalRun(own, After(own, s, e), es)
    requires !Disturbs(own, s, e) && Undisturbed(own, After(own, s, e), es)
    ensures LegalRun(own, s, [e] + es) && Undisturbed(own, s, [e] + es)
  {
    var all := [e] + es;
    forall k | 0 <= k < |all|
      ensures LegalEvent(own, Outcome(own, s, all[..k]), all[k]) && !Disturbs(own, Outcome(own, s, all[..k]), all[k])
    {
      if k > 0 {
        assert all[..k] == [e] + es[..k - 1];
        OutcomePrepend(own, s, e, es[..k - 1]);
      }
    }
  }

  // ---------- when the list stays free of duplicates ----------

  /** What holds after every legal run: the server's sockets are live, and its own handle is not among its clients. */
  ghost predicate Sane(own: Handle, s: ServerState) {
    s.ours <= s.net.live && own !in s.ours && own !in s.listed
  }

  /** No client is listed twice, and every listed one has its socket: it was not stopped since it was accepted. */
  ghost predicate Clean(s: ServerState) {
    NoRepeats(s.listed) && forall h :: h in s.listed ==> h in s.ours
  }

  lemma AfterIsSane(own: Handle, s: ServerState, e: ServerEvent)
    requires Sane(own, s) && LegalEvent(own, s, e)
    ensures Sane(own, After(own, s, e))
  {
    if e.Leaving? {
      WithoutKeepsMembers(s.listed, e.handle);
    }
  }

  lemma WithoutKeepsMembers(hs: seq<Handle>, h: Handle)
    ensures forall g :: g in Without(hs, h) ==> g in hs
    ensures forall g :: g in hs && g != h ==> g in Without(hs, h)
  {
    var i := First(hs, h);
    forall g | g in hs && g != h
      ensures g in Without(hs, h)
    {
      var k :| 0 <= k < |hs| && hs[k] == g;
      if i < |hs| {
        assert Erase(hs, i)[if k < i then k else k - 1] == g;
      }
    }
  }

  lemma {:induction false} OutcomeIsSane(own: Handle, net: Net, es: seq<ServerEvent>)
    requires LegalRun(own, Start(net), es)
    ensures Sane(own, Outcome(own, Start(net), es))
    ensures Outcome(own, Start(net), es).listed == Listed(es)
  {
    if es == [] {
      assert AsCallbacks(es) == [];
    } else {
      var last := |es| - 1;
      RunPrefix(own, Start(net), es);
      OutcomeIsSane(own, net, es[..last]);
      AfterIsSane(own, Outcome(own, Start(net), es[..last]), es[last]);
      ListedNext(es, last);
      assert es[..last + 1] == es;
    }
  }

  lemma WithoutIsGone(hs: seq<Handle>, h: Handle)
    requires NoRepeats(hs)
    ensures NoRepeats(Without(hs, h)) && h !in Without(hs, h)
  {
    var i := First(hs, h);
    if i < |hs| {
      forall k | 0 <= k < |hs| - 1
        ensures Erase(hs, i)[k] == hs[if k < i then k else k + 1] != h
      {
        EraseAt(hs, i, k);
      }
    }
  }

  /** An event that does not disturb keeps the list clean, and hands out no listed handle. */
  lemma AfterIsClean(own: Handle, s: ServerState, e: ServerEvent)
    requires Sane(own, s) && Clean(s) && LegalEvent(own, s, e) && !Disturbs(own, s, e)
    ensures Clean(After(own, s, e))
    ensures Accepts(AsCallback(e)) ==> e.handle !in s.listed
  {
    if e.Leaving? {
      WithoutIsGone(s.listed, e.handle);
      WithoutKeepsMembers(s.listed, e.handle);
    }
  }

  lemma {:induction false} OutcomeIsClean(own: Handle, s: ServerState, es: seq<ServerEvent>)
    requires Sane(own, s) && Clean(s) && LegalRun(own, s, es) && Undisturbed(own, s, es)
    ensures Sane(own, Outcome(own, s, es)) && Clean(Outcome(own, s, es))
  {
    if es != [] {
      var last := |es| - 1;
      RunPrefix(own, s, es);
      OutcomeIsClean(own, s, es[..last]);
      AfterIsSane(own, Outcome(own, s, es[..last]), es[last]);
      AfterIsClean(own, Outcome(own, s, es[..last]), es[last]);
    }
  }

  /** The stack accepts a client on handle `h`, which is listed but free. */
  lemma AcceptAgain(own: Handle, s: ServerState, h: Handle)
    requires own in s.net.live && h in s.listed && h !in s.net.live
    ensures var es := [Connecting(SUCCESS, h, 0)];
            LegalRun(own, s, es) && Undisturbed(own, s, es) && !NoRepeats(Outcome(own, s, es).listed)
  {
    var e := Connecting(SUCCESS, h, 0);
    assert [e][..0] == [];
    assert Outcome(own, s, [e]) == After(own, Outcome(own, s, []), e);
    var i := First(s.listed, h);
    assert (s.listed + [h])[i] == h && (s.listed + [h])[|s.listed|] == h;
  }

  /** If a listed client lost its socket, its handle can be handed out again, without any further disturbance: after the
      socket that got the handle in the meantime, if any, is deleted, and the server's own socket is open again. */
  lemma {:induction false} CanRepeat(own: Handle, s: ServerState, h: Handle) returns (es: seq<ServerEvent>)
    requires Sane(own, s) && h in s.listed && h !in s.ours
    ensures LegalRun(own, s, es) && Undisturbed(own, s, es) && !NoRepeats(Outcome(own, s, es).listed)
    decreases own !in s.net.live, h in s.net.live
  {
    if own in s.net.live && h !in s.net.live {
      AcceptAgain(own, s, h);
      es := [Connecting(SUCCESS, h, 0)];
    } else {
      var e := Elsewhere(if own !in s.net.live then Begin(true, SUCCESS, SUCCESS, own) else End(h, SUCCESS, SUCCESS, SUCCESS));
      AfterIsSane(own, s, e);
      var rest := CanRepeat(own, After(own, s, e), h);
      OutcomePrepend(own, s, e, rest);
      RunPrepend(own, s, e, rest);
      es := [e] + rest;
    }
  }

  /** The list stays without duplicates, however a run goes on, exactly when it is clean now. */
  lemma StaysCleanIff(own: Handle, s: ServerState)
    requires Sane(own, s)
    ensures (forall more: seq<ServerEvent> :: LegalRun(own, s, more) && Undisturbed(own, s, more) ==>
                                                NoRepeats(Outcome(own, s, more).listed))
            <==> Clean(s)
  {
    if Clean(s) {
      forall more: seq<ServerEvent> | LegalRun(own, s, more) && Undisturbed(own, s, more)
        ensures NoRepeats(Outcome(own, s, more).listed)
      {
        OutcomeIsClean(own, s, more);
      }
    } else if NoRepeats(s.listed) {
      var h :| h in s.listed && h !in s.ours;
      var more := CanRepeat(own, s, h);
    } else {
      var none: seq<ServerEvent> := [];
      assert LegalRun(own, s, none) && Undisturbed(own, s, none) && Outcome(own, s, none) == s;
    }
  }

  /** For every run the socket library allows: the list of the server stays free of duplicates in every continuation in
      which clients go only by disconnecting, if and only if it has none now and no listed client was stopped since
      the server accepted it. */
  lemma ListStaysCleanIff(own: Handle, net: Net, es: seq<ServerEvent>)
    requires LegalRun(own, Start(net), es)
    ensures var s := Outcome(own, Start(net), es);
            && s.listed == Listed(es)
            && ((forall more: seq<ServerEvent> :: LegalRun(own, s, more) && Undisturbed(own, s, more) ==>
                                                    NoRepeats(Outcome(own, s, more).listed))
                <==> NoRepeats(Listed(es)) && forall h :: h in Listed(es) ==> h in s.ours)
  {
    OutcomeIsSane(own, net, es);
    StaysCleanIff(own, Outcome(own, Start(net), es));
  }

  lemma FreshNext(es: seq<ServerEvent>)
    requires es != [] && FreshHandles(AsCallbacks(es[..|es| - 1]))
    requires Accepts(AsCallback(es[|es| - 1])) ==> es[|es| - 1].handle !in Listed(es[..|es| - 1])
    ensures FreshHandles(AsCallbacks(es))
  {
    var last := |es| - 1;
    var cs, before := AsCallbacks(es), AsCallbacks(es[..last]);
    assert cs[..last] == before;
    forall k | 0 <= k < |cs| && Accepts(cs[k])
      ensures cs[k].handle !in Clients(cs[..k])
    {
      if k < last {
        assert cs[..k] == before[..k] && cs[k] == before[k];
      }
    }
  }

  /** In every run the socket library allows, in which clients go only by disconnecting, no listed handle is handed
      out again. */
  lemma {:induction false} UndisturbedRunsHaveFreshHandles(own: Handle, net: Net, es: seq<ServerEvent>)
    requires LegalRun(own, Start(net), es) && Undisturbed(own, Start(net), es)
    ensures FreshHandles(AsCallbacks(es)) && Clean(Outcome(own, Start(net), es))
  {
    if es != [] {
      var last := |es| - 1;
      var init := es[..last];
      RunPrefix(own, Start(net), es);
      UndisturbedRunsHaveFreshHandles(own, net, init);
      OutcomeIsSane(own, net, init);
      AfterIsClean(own, Outcome(own, Start(net), init), es[last]);
      FreshNext(es);
    }
  }

  /** So in such a run the list is at all times exactly the clients accepted and not disconnected since, in order of
      acceptance and without duplicates, and every one of them has its socket. */
  lemma ServerListIsOpenClients(own: Handle, net: Net, es: seq<ServerEvent>)
    requires LegalRun(own, Start(net), es) && Undisturbed(own, Start(net), es)
    ensures Listed(es) == OpenClients(AsCallbacks(es), |es|) && NoRepeats(Listed(es))
    ensures forall h :: h in Listed(es) ==> h in Outcome(own, Start(net), es).ours
  {
    UndisturbedRunsHaveFreshHandles(own, net, es);
    OutcomeIsSane(own, net, es);
    ListIsOpenClients(AsCallbacks(es));
    NoDuplicates(AsCallbacks(es));
  }

  /** The sketch stops a client, and the stack gives its handle to the next one. */
  function StopAndReuse(h: Handle): seq<ServerEvent> {
    [Connecting(SUCCESS, h, 0), Stopping(0, SUCCESS, SUCCESS, SUCCESS), Connecting(SUCCESS, h, 0)]
  }

  lemma StopAndReuseList(h: Handle)
    ensures Listed(StopAndReuse(h)) == [h, h] && !FreshHandles(AsCallbacks(StopAndReuse(h)))
  {
    var es := StopAndReuse(h);
    ListedNext(es, 0);
    ListedNext(es, 1);
    ListedNext(es, 2);
    assert es[..0] == [] && es[..3] == es && AsCallbacks([]) == [];
    var cs := AsCallbacks(es);
    assert cs[..2] == AsCallbacks(es[..2]) && Accepts(cs[2]) && cs[2].handle == h;
    assert h in Clients(cs[..2]);
  }

  /** The run after which a handle is listed twice, although the socket library keeps its contract. */
  lemma StoppedClientIsListedTwice(own: Handle, net: Net, h: Handle)
    requires own in net.live && h !in net.live
    ensures LegalRun(own, Start(net), StopAndReuse(h)) && !Undisturbed(own, Start(net), StopAndReuse(h))
    ensures Listed(StopAndReuse(h)) == [h, h] && !FreshHandles(AsCallbacks(StopAndReuse(h)))
  {
    var es, s := StopAndReuse(h), Start(net);
    OutcomeNext(own, s, es, 0);
    OutcomeNext(own, s, es, 1);
    assert es[..0] == [];
    assert Disturbs(own, Outcome(own, s, es[..1]), es[1]);
    StopAndReuseList(h);
  }

  // ---------- what each client receives ----------

  /** A listed client, and what happened to its buffer since it was accepted. */
  datatype Conn = Conn(handle: Handle, flows: seq<Flow<byte>>)

  function HandlesOf(conns: seq<Conn>): (hs: seq<Handle>)
    ensures |hs| == |conns|
  {
    seq(|conns|, k requires 0 <= k < |conns| => conns[k].handle)
  }

  /** Data comes in if the stack hands it over; without a protocol it is not even asked. */
  function Incoming(protocol: Protocol, recvRet: Result, pending: seq<byte>): Flow<byte> {
    Put(if protocol == NotSet || recvRet != SUCCESS then [] else pending)
  }

  function Happens(conns: seq<Conn>, i: nat, flow: Flow<byte>): (conns': seq<Conn>)
    requires i < |conns|
    ensures HandlesOf(conns') == HandlesOf(conns)
  {
    conns[i := Conn(conns[i].handle, conns[i].flows + [flow])]
  }

  /** One event, as the code routes it: a callback goes to the first client with the handle. */
  function ConnsAfter(protocol: Protocol, conns: seq<Conn>, e: ServerEvent): seq<Conn> {
    match e
    case Connecting(acceptRet, h, _) => if acceptRet == SUCCESS then conns + [Conn(h, [])] else conns
    case Leaving(h, _, _, _) =>
      var i := First(HandlesOf(conns), h);
      if i < |conns| then Erase(conns, i) else conns
    case Arriving(h, recvRet, pending) =>
      var i := First(HandlesOf(conns), h);
      if i < |conns| then Happens(conns, i, Incoming(protocol, recvRet, pending)) else conns
    case Reading(i, len) => if i < |conns| then Happens(conns, i, Take(len)) else conns
    case _ => conns
  }

  function Conns(protocol: Protocol, es: seq<ServerEvent>): seq<Conn> {
    if es == [] then [] else ConnsAfter(protocol, Conns(protocol, es[..|es| - 1]), es[|es| - 1])
  }

  lemma HandlesAfter(protocol: Protocol, conns: seq<Conn>, e: ServerEvent)
    ensures HandlesOf(ConnsAfter(protocol, conns, e)) == ListAfter(HandlesOf(conns), e)
  {
    match e
    case Connecting(acceptRet, h, _) =>
      assert HandlesOf(conns + [Conn(h, [])]) == HandlesOf(conns) + [h];
    case Leaving(h, _, _, _) =>
      HandlesAfterLeaving(conns, h);
    case _ =>
  }

  lemma HandlesAfterLeaving(conns: seq<Conn>, h: Handle)
    ensures var i := First(HandlesOf(conns), h);
            HandlesOf(if i < |conns| then Erase(conns, i) else conns) == Without(HandlesOf(conns), h)
  {
    var i := First(HandlesOf(conns), h);
    if i < |conns| {
      HandlesErased(conns, i);
    }
  }

  lemma HandlesErased(conns: seq<Conn>, i: nat)
    requires i < |conns|
    ensures HandlesOf(Erase(conns, i)) == Erase(HandlesOf(conns), i)
  {
    forall k | 0 <= k < |conns| - 1
      ensures HandlesOf(Erase(conns, i))[k] == Erase(HandlesOf(conns), i)[k]
    {
      EraseAt(conns, i, k);
      EraseAt(HandlesOf(conns), i, k);
    }
  }

  lemma {:induction false} ConnsAreListed(protocol: Protocol, es: seq<ServerEvent>)
    ensures HandlesOf(Conns(protocol, es)) == Listed(es)
  {
    if es == [] {
      assert AsCallbacks(es) == [];
    } else {
      var last := |es| - 1;
      ConnsAreListed(protocol, es[..last]);
      HandlesAfter(protocol, Conns(protocol, es[..last]), es[last]);
      ListedNext(es, last);
      assert es[..last + 1] == es;
    }
  }

  /** What concerns handle `h` since it was last accepted: the data that arrived for it, and the reads from it. */
  function FlowsSince(protocol: Protocol, es: seq<ServerEvent>, h: Handle): seq<Flow<byte>> {
    if es == [] then []
    else
      var init := es[..|es| - 1];
      var before := FlowsSince(protocol, init, h);
      match es[|es| - 1]
      case Connecting(acceptRet, g, _) => if acceptRet == SUCCESS && g == h then [] else before
      case Arriving(g, recvRet, pending) => if g == h then before + [Incoming(protocol, recvRet, pending)] else before
      case Reading(i, len) => if i < |Listed(init)| && Listed(init)[i] == h then before + [Take(len)] else before
      case _ => before
  }

  /** The listed clients, of which no two have the same handle, know what concerns their handles. */
  ghost predicate Routed(protocol: Protocol, es: seq<ServerEvent>, conns: seq<Conn>) {
    forall k :: 0 <= k < |conns| ==> conns[k].flows == FlowsSince(protocol, es, conns[k].handle)
  }

  lemma RoutedNext(protocol: Protocol, es: seq<ServerEvent>, conns: seq<Conn>)
    requires es != [] && Routed(protocol, es[..|es| - 1], conns)
    requires HandlesOf(conns) == Listed(es[..|es| - 1]) && NoRepeats(HandlesOf(conns))
    requires Accepts(AsCallback(es[|es| - 1])) ==> es[|es| - 1].handle !in HandlesOf(conns)
    ensures Routed(protocol, es, ConnsAfter(protocol, conns, es[|es| - 1]))
  {
    match es[|es| - 1]
    case Connecting(_, _, _) => RoutedConnect(protocol, es, conns);
    case Leaving(_, _, _, _) => RoutedLeave(protocol, es, conns);
    case Arriving(_, _, _) => RoutedArrive(protocol, es, conns);
    case Reading(_, _) => RoutedRead(protocol, es, conns);
    case _ =>
  }

  lemma RoutedLeave(protocol: Protocol, es: seq<ServerEvent>, conns: seq<Conn>)
    requires es != [] && es[|es| - 1].Leaving? && Routed(protocol, es[..|es| - 1], conns)
    ensures Routed(protocol, es, ConnsAfter(protocol, conns, es[|es| - 1]))
  {
    var i := First(HandlesOf(conns), es[|es| - 1].handle);
    if i < |conns| {
      assert forall k :: 0 <= k < |conns| - 1 ==> Erase(conns, i)[k] == conns[if k < i then k else k + 1];
    }
  }

  lemma RoutedArrive(protocol: Protocol, es: seq<ServerEvent>, conns: seq<Conn>)
    requires es != [] && es[|es| - 1].Arriving? && Routed(protocol, es[..|es| - 1], conns)
    requires NoRepeats(HandlesOf(conns))
    ensures Routed(protocol, es, ConnsAfter(protocol, conns, es[|es| - 1]))
  {
    var e, hs := es[|es| - 1], HandlesOf(conns);
    var i, flow := First(hs, e.handle), Incoming(protocol, e.recvRet, e.pending);
    forall h | h in hs
      ensures FlowsSince(protocol, es, h)
           == FlowsSince(protocol, es[..|es| - 1], h) + if i < |conns| && h == hs[i] then [flow] else []
    {
      assert h == e.handle <==> i < |conns| && h == hs[i];
    }
    RoutedHappens(protocol, es, conns, i, flow);
  }

  lemma RoutedRead(protocol: Protocol, es: seq<ServerEvent>, conns: seq<Conn>)
    requires es != [] && es[|es| - 1].Reading? && Routed(protocol, es[..|es| - 1], conns)
    requires HandlesOf(conns) == Listed(es[..|es| - 1]) && NoRepeats(HandlesOf(conns))
    ensures Routed(protocol, es, ConnsAfter(protocol, conns, es[|es| - 1]))
  {
    RoutedHappens(protocol, es, conns, es[|es| - 1].client, Take(es[|es| - 1].len));
  }

  lemma RoutedConnect(protocol: Protocol, es: seq<ServerEvent>, conns: seq<Conn>)
    requires es != [] && es[|es| - 1].Connecting? && Routed(protocol, es[..|es| - 1], conns)
    requires es[|es| - 1].acceptRet == SUCCESS ==> es[|es| - 1].handle !in HandlesOf(conns)
    ensures Routed(protocol, es, ConnsAfter(protocol, conns, es[|es| - 1]))
  {
    forall k | 0 <= k < |conns| && es[|es| - 1].acceptRet == SUCCESS
      ensures conns[k].handle != es[|es| - 1].handle
    {
      assert HandlesOf(conns)[k] == conns[k].handle;
    }
  }

  /** An event that adds `flow` for the handle of client `i`, if there is one, and nothing for others. */
  lemma RoutedHappens(protocol: Protocol, es: seq<ServerEvent>, conns: seq<Conn>, i: nat, flow: Flow<byte>)
    requires es != [] && Routed(protocol, es[..|es| - 1], conns) && NoRepeats(HandlesOf(conns))
    requires forall h :: h in HandlesOf(conns) ==>
               FlowsSince(protocol, es, h) == FlowsSince(protocol, es[..|es| - 1], h) +
                                              if i < |conns| && h == HandlesOf(conns)[i] then [flow] else []
    ensures Routed(protocol, es, if i < |conns| then Happens(conns, i, flow) else conns)
  {
    var hs, after := HandlesOf(conns), if i < |conns| then Happens(conns, i, flow) else conns;
    forall k | 0 <= k < |after|
      ensures after[k].flows == FlowsSince(protocol, es, after[k].handle)
    {
      assert hs[k] == after[k].handle == conns[k].handle && hs[k] in hs;
      assert i < |hs| && hs[k] == hs[i] ==> k == i;
    }
  }

  /** Every client gets its own: as long as no listed handle is handed out again, each listed client's buffer sees exactly
      the data that arrived for its handle since it was accepted, and the reads from it, in order. */
  lemma {:induction false} EachClientGetsItsOwn(protocol: Protocol, es: seq<ServerEvent>)
    requires FreshHandles(AsCallbacks(es))
    ensures Routed(protocol, es, Conns(protocol, es))
  {
    if es != [] {
      var last := |es| - 1;
      var init, cs := es[..last], AsCallbacks(es);
      assert cs[..last] == AsCallbacks(init);
      FreshPrefix(cs, last);
      EachClientGetsItsOwn(protocol, init);
      ConnsAreListed(protocol, init);
      NoDuplicates(AsCallbacks(init));
      RoutedNext(protocol, es, Conns(protocol, init));
    }
  }

  lemma StopAndReuseConns(protocol: Protocol, h: Handle)
    ensures Conns(protocol, StopAndReuse(h)) == [Conn(h, []), Conn(h, [])]
    ensures FlowsSince(protocol, StopAndReuse(h), h) == []
  {
    var es := StopAndReuse(h);
    assert es[..2][..1] == es[..1] && es[..1][..0] == [];
    assert Conns(protocol, es[..1]) == ConnsAfter(protocol, Conns(protocol, []), es[0]) == [Conn(h, [])];
    assert Conns(protocol, es[..2]) == ConnsAfter(protocol, Conns(protocol, es[..1]), es[1]);
  }

  /** Otherwise it fails: after a stopped client's handle was given to a new one, all data for it goes to the stopped
      client, which nobody reads, and the new client gets nothing, however much arrives. */
  lemma {:induction false} NewClientStarves(protocol: Protocol, h: Handle, more: seq<ServerEvent>)
    requires forall e :: e in more ==> e.Arriving? && e.handle == h
    ensures var es := StopAndReuse(h) + more;
            && Conns(protocol, es) == [Conn(h, FlowsSince(protocol, es, h)), Conn(h, [])]
            && |FlowsSince(protocol, es, h)| == |more|
  {
    var es := StopAndReuse(h) + more;
    if more == [] {
      assert es == StopAndReuse(h);
      StopAndReuseConns(protocol, h);
    } else {
      var last := |more| - 1;
      assert es[..|es| - 1] == StopAndReuse(h) + more[..last] && es[|es| - 1] == more[last] && more[last] in more;
      NewClientStarves(protocol, h, more[..last]);
      ArrivalAtFirst(protocol, h, FlowsSince(protocol, es[..|es| - 1], h), more[last]);
    }
  }

  lemma ArrivalAtFirst(protocol: Protocol, h: Handle, flows: seq<Flow<byte>>, e: ServerEvent)
    requires e.Arriving? && e.handle == h
    ensures ConnsAfter(protocol, [Conn(h, flows), Conn(h, [])], e)
         == [Conn(h, flows + [Incoming(protocol, e.recvRet, e.pending)]), Conn(h, [])]
  {
    var hs := HandlesOf([Conn(h, flows), Conn(h, [])]);
    assert hs[0] == h && First(hs, h) == 0;
  }
}
