/**
 The TCP server: the callbacks of the stack keep its list of clients.

 A `WiFiClient` is nothing but a shared pointer to its socket, so the list holds the sockets.
 */
module WiFiServer {
  import opened Common
  import opened Fifo
  import opened SocketCount
  import opened SecSocket
  import opened ClientList

  class WiFiServerClass {
    const socket: Socket
    var clients: seq<Socket>
    /** The static variable of `available`. */
    var lastAvailable: nat

    ghost predicate Valid()
      reads this, clients, set c | c in clients :: c.rx
    {
      && (forall c :: c in clients ==> c != socket && c.Valid() && c.globals == socket.globals)
      && (forall i, j :: 0 <= i < j < |clients| ==> clients[i] != clients[j] && clients[i].rx != clients[j].rx)
      && lastAvailable < TWO16
    }

    ghost function Handles(): (hs: seq<Handle>)
      reads this, clients
      ensures |hs| == |clients|
    {
      seq(|clients|, i requires 0 <= i < |clients| reads this, clients => clients[i].handle)
    }

    /** The buffers of the listed clients. */
    ghost function Queues(): (qs: seq<seq<byte>>)
      reads this, clients, set c | c in clients :: c.rx
      ensures |qs| == |clients|
    {
      seq(|clients|, k requires 0 <= k < |clients| reads this, clients, set c | c in clients :: c.rx => clients[k].rx.q)
    }

    constructor (socket: Socket)
      ensures Valid() && this.socket == socket && clients == [] && Handles() == []
    {
      this.socket := socket;
      clients := [];
      lastAvailable := 0;
    }

    /** A client is added first and taken out again if accepting fails. */
    method ConnectionCallback(acceptRet: Result, newHandle: Handle, peerIp: nat) returns (ret: Result)
      requires Valid()
      requires Possible(socket.globals.View(), Accept(socket.handle, acceptRet, newHandle))
      modifies this`clients, socket`status, socket`lastError, socket.globals
      ensures Valid()
      ensures Handles() == old(Handles()) + if acceptRet == SUCCESS then [newHandle] else []
      ensures acceptRet == SUCCESS ==>
                var client := clients[|old(clients)|];
                && fresh(client) && fresh(client.rx) && clients[..|old(clients)|] == old(clients)
                && client.status == Connected && client.protocol == socket.protocol
                && client.remoteIp == peerIp && client.port == socket.port
                && client.rx.q == [] && client.outgoing == []
      ensures acceptRet != SUCCESS ==> clients == old(clients)
      ensures ret == acceptRet == socket.lastError
      ensures socket.status == if acceptRet == SUCCESS then old(socket.status) else Error
      ensures socket.globals.View() == Next(old(socket.globals.View()), Accept(socket.handle, acceptRet, newHandle))
    {
      var client := new Socket(socket.globals);
      clients := clients + [client];
      var ok := socket.Accept(client, acceptRet, newHandle, peerIp);
      if !ok {
        clients := clients[..|clients| - 1];
        return socket.lastError;
      }
      return SUCCESS;
    }

    /** The first client with the given handle, searched from the front. */
    method Find(h: Handle) returns (i: nat)
      requires Valid()
      ensures i <= |clients| && (forall k :: 0 <= k < i ==> clients[k].handle != h)
      ensures i < |clients| ==> clients[i].handle == h
      ensures i == |clients| <==> h !in Handles()
    {
      i := 0;
      while i < |clients|
        invariant i <= |clients| && forall k :: 0 <= k < i ==> clients[k].handle != h
      {
        if clients[i].handle == h {
          assert Handles()[i] == h;
          break;
        }
        i := i + 1;
      }
    }

    /** The same search with a 16-bit index.  It ends if the index does not wrap, or the client is found before it does. */
    method FindByIndex(h: Handle) returns (i: nat)
      requires Valid() && SearchEnds(Handles(), h)
      ensures i == First(Handles(), h)
    {
      i := 0;
      ghost var hs := Handles();
      while i < |clients|
        invariant i <= First(hs, h) && i < TWO16
        decreases TWO16 - i
      {
        if clients[i].handle == h {
          assert hs[i] == h;
          break;
        }
        assert hs[i] != h;
        assert i < First(hs, h);
        i := (i + 1) % TWO16;
      }
    }

    /** Client `k` is the first with the given handle. */
    ghost predicate IsFirst(k: nat, h: Handle)
      requires k < |clients|
      reads this, clients
    {
      clients[k].handle == h && forall j :: 0 <= j < k ==> clients[j].handle != h
    }

    /** Data arrived for one client: only that client's socket and buffer change, and only if it is listed. */
    method ReceiveCallback(h: Handle, recvRet: Result, pending: seq<byte>) returns (taken: seq<byte>)
      requires Valid()
      modifies set c | c in clients && c.handle == h :: c`status,
               set c | c in clients && c.handle == h :: c`lastError,
               set c | c in clients && c.handle == h :: c.rx
      ensures Valid() && Handles() == old(Handles())
      ensures h !in Handles() ==> taken == []
      ensures forall k :: 0 <= k < |clients| && old(IsFirst(k, h)) ==> clients[k].Received(recvRet, pending, taken)
      ensures forall k :: 0 <= k < |clients| && !old(IsFirst(k, h)) ==>
                unchanged(clients[k]) && unchanged(clients[k].rx)
    {
      taken := [];
      var i := Find(h);
      if i < |clients| {
        taken := clients[i].ReceiveCallback(recvRet, pending);
      }
    }

    /** Stops the client at `i`, with the answers of the stack, and takes it off the list. */
    method StopAt(i: nat, client: Socket, disconnectRet: Result, deleteRet: Result, deinitRet: Result)
      requires Valid() && i < |clients| && client == clients[i]
      requires Possible(socket.globals.View(), SocketCount.End(client.handle, disconnectRet, deleteRet, deinitRet))
      modifies this`clients, socket.globals, client`status, client`lastError
      ensures Valid() && clients == Erase(old(clients), i) && forall c :: c in clients ==> c in old(clients)
      ensures Handles() == Erase(old(Handles()), i) && Queues() == Erase(old(Queues()), i)
      ensures client.status == Deleted || client.status == Error
      ensures socket.globals.View()
           == Next(old(socket.globals.View()),
                   SocketCount.End(client.handle, disconnectRet, deleteRet, deinitRet))
    {
      assert client in clients;
      client.End(disconnectRet, deleteRet, deinitRet);
      assert Handles() == old(Handles()) && Queues() == old(Queues());
      ErasedViews(Erase(clients, i), i);
      EraseKeepsMembers(clients, i);
      clients := Erase(clients, i);
    }

    /** What erasing a client does to the handles and the buffers. */
    lemma ErasedViews(after: seq<Socket>, i: nat)
      requires i < |clients| && after == Erase(clients, i)
      ensures forall k :: 0 <= k < |after| ==> after[k].handle == Erase(Handles(), i)[k]
      ensures forall k :: 0 <= k < |after| ==> after[k].rx.q == Erase(Queues(), i)[k]
    {
      forall k | 0 <= k < |after|
        ensures after[k].handle == Erase(Handles(), i)[k] && after[k].rx.q == Erase(Queues(), i)[k]
      {
        EraseAt(clients, i, k);
        EraseAt(Handles(), i, k);
        EraseAt(Queues(), i, k);
      }
    }

    /** A client went away: it is stopped and taken off the list, whether or not stopping succeeds. */
    method DisconnectionCallback(h: Handle, disconnectRet: Result, deleteRet: Result, deinitRet: Result)
      requires Valid() && SearchEnds(Handles(), h)
      requires h in Handles() ==>
                 Possible(socket.globals.View(), SocketCount.End(h, disconnectRet, deleteRet, deinitRet))
      modifies this`clients, socket.globals,
               set c | c in clients && c.handle == h :: c`status,
               set c | c in clients && c.handle == h :: c`lastError
      ensures Valid()
      ensures var i := First(old(Handles()), h);
              if i < |old(clients)|
              then clients == Erase(old(clients), i) && Handles() == Erase(old(Handles()), i)
                   && Queues() == Erase(old(Queues()), i)
              else clients == old(clients) && Handles() == old(Handles()) && Queues() == old(Queues())
      ensures forall c :: c in clients ==> c in old(clients)
      ensures socket.globals.View()
           == if h in old(Handles())
              then Next(old(socket.globals.View()), SocketCount.End(h, disconnectRet, deleteRet, deinitRet))
              else old(socket.globals.View())
    {
      var i := FindByIndex(h);
      if i < |clients| {
        StopAt(i, clients[i], disconnectRet, deleteRet, deinitRet);
      }
    }

    /** What the stack answers when the socket with a given handle is stopped. */
    ghost predicate Answerable(answers: Handle -> (Result, Result, Result))
      reads this, clients, socket, socket.globals
    {
      && (forall i, j :: 0 <= i < j < |clients| ==> clients[i].handle != clients[j].handle)
      && (forall i :: 0 <= i < |clients| ==>
            var answer := answers(clients[i].handle);
            answer.0 == SUCCESS || answer.1 == SUCCESS ==> clients[i].handle in socket.globals.live)
    }

    /** One round of the loop of `end`. */
    method StopNext(i: nat, client: Socket, answers: Handle -> (Result, Result, Result))
      requires Valid() && Answerable(answers) && i < |clients| && client == clients[i]
      modifies this`clients, socket.globals, client`status, client`lastError
      ensures Valid() && Answerable(answers)
      ensures clients == Erase(old(clients), i) && Handles() == Erase(old(Handles()), i)
      ensures client.status == Deleted || client.status == Error
      ensures forall c :: c in clients ==> c in old(clients) && c != client
      ensures Possible(old(socket.globals.View()), EndCall(old(Handles())[i], answers))
      ensures socket.globals.View() == Next(old(socket.globals.View()), EndCall(old(Handles())[i], answers))
    {
      var answer := answers(client.handle);
      StopAt(i, client, answer.0, answer.1, answer.2);
      assert forall k :: 0 <= k < |clients| ==> clients[k] == old(clients)[if k < i then k else k + 1];
    }

    /** The loop of `end`: `stopped` lists the clients it stops, each with one `end` call on its socket; the ones
        it skips stay in the list, untouched. */
    method StopClients(answers: Handle -> (Result, Result, Result)) returns (stopped: seq<Socket>)
      requires Valid() && Answerable(answers)
      modifies this`clients, socket.globals, set c | c in clients :: c`status, set c | c in clients :: c`lastError
      ensures Valid()
      ensures stopped == Stopped(old(clients), 0) && clients == Leftover(old(clients), 0)
      ensures Handles() == Leftover(old(Handles()), 0)
      ensures forall c :: c in stopped ==> c.status == Deleted || c.status == Error
      ensures forall c :: c in clients ==> c in old(clients) && c.status == old(c.status)
      ensures var calls := EndCalls(Stopped(old(Handles()), 0), answers);
              Legal(old(socket.globals.View()), calls)
              && socket.globals.View() == Run(old(socket.globals.View()), calls)
    {
      stopped := [];
      var i: nat := 0;
      ghost var all, net, hs, handles := clients, socket.globals.View(), Handles(), [];
      HalfwayStarts(all);
      HalfwayStarts(hs);
      while i < |clients|
        invariant Valid() && Answerable(answers) && i < TWO16
        invariant Halfway(all, stopped, clients, i) && Halfway(hs, handles, Handles(), i)
        invariant forall c :: c in clients ==> c in all && c.status == old(c.status)
        invariant forall c :: c in stopped ==> c.status == Deleted || c.status == Error
        invariant CallsMade(net, socket.globals.View(), handles, answers)
        decreases |clients|
      {
        var client := clients[i];
        assert client in clients && client in all;
        HalfwayNext(all, stopped, clients, i);
        HalfwayNext(hs, handles, Handles(), i);
        CallsMadeNext(net, socket.globals.View(), handles, Handles()[i], answers);
        stopped := stopped + [client];
        handles := handles + [Handles()[i]];
        StopNext(i, client, answers);
        i := (i + 1) % TWO16;
      }
      HalfwayEnds(all, stopped, clients, i);
      HalfwayEnds(hs, handles, Handles(), i);
    }

    /** `end`: the loop, and then the server's own socket. */
    method End(answers: Handle -> (Result, Result, Result)) returns (stopped: seq<Socket>)
      requires Valid() && Answerable(answers) && socket.handle !in Handles()
      requires answers(socket.handle).0 == SUCCESS || answers(socket.handle).1 == SUCCESS ==>
                 socket.handle in socket.globals.live
      modifies this`clients, socket`status, socket`lastError, socket.globals,
               set c | c in clients :: c`status, set c | c in clients :: c`lastError
      ensures Valid()
      ensures stopped == Stopped(old(clients), 0) && clients == Leftover(old(clients), 0)
      ensures var calls := EndCalls(Stopped(old(Handles()), 0) + [old(socket.handle)], answers);
              Legal(old(socket.globals.View()), calls)
              && socket.globals.View() == Run(old(socket.globals.View()), calls)
    {
      ghost var net, hs, own := socket.globals.View(), Handles(), socket.handle;
      assert socket !in clients;
      stopped := StopClients(answers);
      ghost var handles := Stopped(hs, 0);
      if own in net.live {
        StoppedAreListed(hs, 0);
        LiveUnlessDeleted(net, EndCalls(handles, answers), own);
      }
      CallsMadeNext(net, socket.globals.View(), handles, own, answers);
      var answer := answers(socket.handle);
      socket.End(answer.0, answer.1, answer.2);
    }

    /** Which clients are connected and have data. */
    ghost function ReadyList(): (ready: seq<bool>)
      reads this, clients, set c | c in clients :: c.rx
      ensures |ready| == |clients|
    {
      seq(|clients|, k requires 0 <= k < |clients| reads this, clients, set c | c in clients :: c.rx => Ready(clients[k]))
    }

    /** The next client that is connected and has data, looked for from the cursor to the end of the list.
        `None` stands for the sentinel client.  The list must not be empty. */
    method Available() returns (r: Option<nat>)
      requires Valid() && 0 < |clients| < TWO16
      modifies `lastAvailable
      ensures Valid()
      ensures (r, lastAvailable) == Look(old(ReadyList()), old(lastAvailable))
      ensures Answers(old(lastAvailable) % |clients|, r, lastAvailable)
    {
      ghost var ready, cursor := ReadyList(), lastAvailable;
      lastAvailable := lastAvailable % |clients|;
      var i := FirstWithData(lastAvailable);
      LookIs(ready, cursor, lastAvailable, i);
      if i < |clients| {
        lastAvailable := i;
        return Some(i);
      }
      return None;
    }

    /** The loop of `available`: the place of the first client from `from` on that has data, or the end of the list. */
    method FirstWithData(from: nat) returns (i: nat)
      requires from <= |clients|
      ensures from <= i <= |clients| && NoneHasData(from, i)
      ensures i < |clients| ==> clients[i].status == Connected && clients[i].rx.q != []
    {
      i := from;
      while i < |clients|
        invariant from <= i <= |clients| && NoneHasData(from, i)
      {
        if Ready(clients[i]) {
          break;
        }
        i := i + 1;
      }
    }

    /** From place `from` up to place `to` no client is connected and has data. */
    ghost predicate NoneHasData(from: nat, to: nat)
      requires to <= |clients|
      reads this, clients, set c | c in clients :: c.rx
    {
      forall k :: from <= k < to ==> clients[k].status != Connected || clients[k].rx.q == []
    }

    /** The answer of `available` that looks from place `from` on: a connected client with data, the first one from there,
        where the cursor then stands; or none, if there is none, and then the cursor stays at `from`. */
    ghost predicate Answers(from: nat, r: Option<nat>, cursor: nat)
      reads this, clients, set c | c in clients :: c.rx
    {
      match r
      case Some(k) =>
        && from <= k < |clients| && clients[k].status == Connected && clients[k].rx.q != []
        && NoneHasData(from, k) && cursor == k
      case None => NoneHasData(from, |clients|) && cursor == from
    }

    predicate Ready(c: Socket)
      reads c, c.rx
    {
      c.status == Connected && |c.rx.q| > 0
    }

    /** `write`: `answers[k]` is the result, and the number of bytes the stack is willing to take, for client k. */
    method Write(buf: seq<byte>, answers: seq<(Result, nat)>) returns (writtenBytes: nat)
      requires Valid() && |answers| == |clients|
      modifies set c | c in clients :: c`status, set c | c in clients :: c`lastError,
               set c | c in clients :: c`outgoing
      ensures Valid()
      ensures forall k :: 0 <= k < |clients| ==> SentTo(clients[k], buf, answers[k])
      ensures writtenBytes == LeastWritten(SentCounts(|buf|, answers))
    {
      writtenBytes := 0xffff_ffff;
      ghost var sent := SentCounts(|buf|, answers);
      for k := 0 to |clients|
        invariant writtenBytes == LeastWritten(sent[..k])
        invariant forall j :: 0 <= j < k ==> SentTo(clients[j], buf, answers[j])
        invariant forall j :: k <= j < |clients| ==> unchanged(clients[j])
      {
        assert sent[..k + 1][..k] == sent[..k] && clients[k] in clients;
        var n := clients[k].Send(buf, answers[k].0, answers[k].1);
        var written := n % TWO16;
        writtenBytes := if written > writtenBytes then writtenBytes else written;
      }
      assert sent[..|clients|] == sent;
    }
  }

  /** The loop over a 16-bit index ends: the list is short enough, or the handle is found in time. */
  predicate SearchEnds(hs: seq<Handle>, h: Handle) {
    |hs| < TWO16 || First(hs, h) < TWO16
  }

  /** A client was sent what the stack was willing to take of `buf`. */
  twostate predicate SentTo(client: Socket, buf: seq<byte>, answer: (Result, nat))
    reads client
  {
    && client.outgoing == old(client.outgoing) + buf[..Min(answer.1, |buf|)]
    && client.lastError == answer.0
    && client.status == if answer.0 == SUCCESS then old(client.status) else Error
  }

  /** The `end` call on the socket with the given handle, with the answers of the stack. */
  function EndCall(h: Handle, answers: Handle -> (Result, Result, Result)): Call {
    var answer := answers(h);
    SocketCount.End(h, answer.0, answer.1, answer.2)
  }

  function EndCalls(hs: seq<Handle>, answers: Handle -> (Result, Result, Result)): (cs: seq<Call>)
    ensures |cs| == |hs|
  {
    seq(|hs|, k requires 0 <= k < |hs| => EndCall(hs[k], answers))
  }

  /** From `net` to `now` the sockets with the given handles were ended. */
  ghost predicate CallsMade(net: Net, now: Net, hs: seq<Handle>, answers: Handle -> (Result, Result, Result)) {
    Legal(net, EndCalls(hs, answers)) && now == Run(net, EndCalls(hs, answers))
  }

  lemma CallsMadeNext(net: Net, now: Net, hs: seq<Handle>, h: Handle, answers: Handle -> (Result, Result, Result))
    requires CallsMade(net, now, hs, answers) && Possible(now, EndCall(h, answers))
    ensures CallsMade(net, Next(now, EndCall(h, answers)), hs + [h], answers)
  {
    RunAppend(net, EndCalls(hs, answers), EndCall(h, answers));
    assert EndCalls(hs + [h], answers) == EndCalls(hs, answers) + [EndCall(h, answers)];
  }

  /** What `end` costs: with two or more clients, all of them live, the skipped ones keep the socket count above
      zero and the network stack up, whatever the stack answers. */
  lemma SkippedClientsKeepStackUp(net: Net, hs: seq<Handle>, own: Handle, answers: Handle -> (Result, Result, Result))
    requires Inv(net) && |hs| >= 2
    requires NoRepeats(hs + [own]) && forall h :: h in hs ==> h in net.live
    requires Legal(net, EndCalls(Stopped(hs, 0) + [own], answers))
    ensures var after := Run(net, EndCalls(Stopped(hs, 0) + [own], answers));
            Up(after.asked) && after.count >= |Leftover(hs, 0)| > 0
  {
    var left, ended := Leftover(hs, 0), Stopped(hs, 0) + [own];
    AllAreStoppedIff(hs);
    StoppedOrLeft(hs, 0);
    StoppedPlusLeft(hs, 0);
    assert hs == (hs + [own])[..|hs|];
    var others := set h | h in left;
    forall h | h in left
      ensures h in net.live && h !in ended
    {
      EachOnce(hs, Stopped(hs, 0), left, h);
      LastIsNew(hs, own, hs + [own]);
    }
    EndsAreBounded(net, EndCalls(ended, answers));
    OthersStayLive(net, EndCalls(ended, answers), others);
    DistinctLeft(hs, Stopped(hs, 0), left);
    SetSize(left);
    assert left[0] in others;
  }

  /** In a list without repeats no element is on both sides of a split. */
  lemma EachOnce<H>(s: seq<H>, a: seq<H>, b: seq<H>, x: H)
    requires NoRepeats(s) && multiset(a) + multiset(b) == multiset(s) && x in b
    ensures x in s && x !in a
  {
    OccursOnce(s, x);
    assert multiset(b)[x] >= 1 && multiset(a)[x] + multiset(b)[x] == multiset(s)[x];
    assert x in multiset(s) && x !in multiset(a);
  }

  lemma {:induction false} OccursOnce<H>(s: seq<H>, x: H)
    requires NoRepeats(s)
    ensures multiset(s)[x] <= 1
  {
    if s != [] {
      var last := |s| - 1;
      assert s == s[..last] + [s[last]];
      OccursOnce(s[..last], x);
      if x == s[last] {
        assert x !in s[..last];
      }
    }
  }

  lemma DistinctLeft<H>(s: seq<H>, a: seq<H>, b: seq<H>)
    requires NoRepeats(s) && multiset(a) + multiset(b) == multiset(s)
    ensures NoRepeats(b)
  {
    forall i, j | 0 <= i < j < |b|
      ensures b[i] != b[j]
    {
      OccursOnce(s, b[i]);
      assert multiset(b)[b[i]] <= multiset(s)[b[i]];
      if b[i] == b[j] {
        CountsTwice(b, i, j);
      }
    }
  }

  lemma CountsTwice<H>(s: seq<H>, i: nat, j: nat)
    requires i < j < |s| && s[i] == s[j]
    ensures multiset(s)[s[i]] >= 2
  {
    assert s == s[..j] + [s[j]] + s[j + 1..];
    assert s[..j][i] in multiset(s[..j]);
  }

  lemma {:induction false} SetSize<H>(s: seq<H>)
    requires NoRepeats(s)
    ensures |set h | h in s| == |s|
  {
    if s != [] {
      var last := |s| - 1;
      SetSize(s[..last]);
      assert (set h | h in s) == (set h | h in s[..last]) + {s[last]};
    }
  }

  function SentCounts(size: nat, answers: seq<(Result, nat)>): (sent: seq<nat>)
    ensures |sent| == |answers|
  {
    seq(|answers|, k requires 0 <= k < |answers| => Min(answers[k].1, size))
  }

  /** `write`, with what its result tells: if there is a client and the size fits in 16 bits, the result is the
      size exactly when every client was sent all of the data. */
  method WriteAndCheck(server: WiFiServerClass, buf: seq<byte>, answers: seq<(Result, nat)>) returns (all: bool)
    requires server.Valid() && |answers| == |server.clients| && server.clients != [] && |buf| < TWO16
    modifies set c | c in server.clients :: c`status, set c | c in server.clients :: c`lastError,
             set c | c in server.clients :: c`outgoing
    ensures server.Valid()
    ensures all <==> forall k :: 0 <= k < |server.clients| ==>
                       server.clients[k].outgoing == old(server.clients[k].outgoing) + buf
  {
    var n := server.Write(buf, answers);
    ghost var sent := SentCounts(|buf|, answers);
    ResultOfSmallWrite(|buf|, sent);
    forall k | 0 <= k < |server.clients|
      ensures server.clients[k].outgoing == old(server.clients[k].outgoing) + buf <==> sent[k] == |buf|
    {
      assert SentTo(server.clients[k], buf, answers[k]);
      PrefixIsAllIff(old(server.clients[k].outgoing), buf, sent[k]);
    }
    return n == |buf|;
  }

  lemma PrefixIsAllIff(before: seq<byte>, buf: seq<byte>, n: nat)
    requires n <= |buf|
    ensures before + buf[..n] == before + buf <==> n == |buf|
  {
    assert |before + buf[..n]| == |before| + n;
    assert buf[..|buf|] == buf;
  }
}
