/**
 UDP datagrams: collecting bytes into one on the way out, keeping packets apart on the way in.

 The stack's callback is taken as one step, as are the calls of the sketch.
 */
module WiFiUdp {
  import opened Fifo
  import opened SocketCount
  import opened SecSocket

  const WIFI_UDP_BUFFER_SIZE: nat := 256

  datatype Address = Address(ip: nat, port: nat)
  const NO_ADDRESS: Address := Address(0, 0)

  /** A datagram as it is handed to the stack. */
  datatype Datagram = Datagram(payload: seq<byte>, to: Address)

  /** A received packet; `rx` is what has not been read of it. */
  datatype Packet = Packet(rx: seq<byte>, sender: Address)

  function Clip(bytes: seq<byte>): seq<byte> {
    bytes[..Min(|bytes|, WIFI_UDP_BUFFER_SIZE)]
  }

  /** Cutting a datagram at a point past the packet size does not show. */
  lemma ClipOfPrefix(bytes: seq<byte>, n: nat)
    requires Min(|bytes|, WIFI_UDP_BUFFER_SIZE) <= n <= |bytes|
    ensures Clip(bytes[..n]) == Clip(bytes)
  {
  }

  class WiFiUdpClass {
    const socket: Socket
    const txBuffer: ByteFifo
    var remote: Address
    var rxPackets: seq<Packet>
    var currentPacket: Packet

    /** Between callbacks the buffer of the socket is empty. */
    ghost predicate Valid()
      reads this, socket, socket.rx, txBuffer
    {
      && socket.Valid() && socket.protocol == Udp && socket.rx.q == []
      && txBuffer.Valid() && txBuffer.cap == WIFI_UDP_BUFFER_SIZE && txBuffer != socket.rx
    }

    constructor (socket: Socket)
      requires socket.Valid() && socket.protocol == Udp && socket.rx.q == []
      ensures Valid() && this.socket == socket && fresh(txBuffer) && txBuffer.q == []
      ensures remote == NO_ADDRESS && rxPackets == [] && currentPacket == Packet([], NO_ADDRESS)
    {
      this.socket := socket;
      txBuffer := new ByteFifo(WIFI_UDP_BUFFER_SIZE);
      remote := NO_ADDRESS;
      rxPackets := [];
      currentPacket := Packet([], NO_ADDRESS);
    }

    // ---------- sending ----------

    method BeginPacket(to: Address) returns (r: int)
      requires Valid()
      modifies this`remote, txBuffer
      ensures Valid() && r == 1 && remote == to && txBuffer.q == []
    {
      remote := to;
      txBuffer.Clear();
      return 1;
    }

    method Write(buffer: seq<byte>) returns (bytesStored: nat)
      requires Valid()
      modifies txBuffer
      ensures Valid() && txBuffer.q == Offer(WIFI_UDP_BUFFER_SIZE, old(txBuffer.q), buffer)
      ensures bytesStored == |txBuffer.q| - |old(txBuffer.q)|
    {
      bytesStored := 0;
      var i := 0;
      while i < |buffer|
        invariant 0 <= i <= |buffer| && bytesStored == i
        invariant Valid() && txBuffer.q == old(txBuffer.q) + buffer[..i]
      {
        if txBuffer.IsFull() {
          break;
        }
        assert buffer[..i + 1] == buffer[..i] + [buffer[i]];
        txBuffer.StoreChar(buffer[i]);
        bytesStored := bytesStored + 1;
        i := i + 1;
      }
    }

    /** `sent` is the datagram handed to the stack, which takes as many of its bytes as it is `willing` to. */
    method EndPacket(sendRet: Result, willing: nat) returns (r: int, sent: Datagram)
      requires Valid()
      modifies txBuffer, socket`status, socket`lastError, socket`outgoing
      ensures Valid() && txBuffer.q == []
      ensures sent == Datagram(old(txBuffer.q), remote)
      ensures r == 1 || r == 0
      ensures socket.outgoing == old(socket.outgoing) + sent.payload[..Min(willing, |sent.payload|)]
      ensures r == 1 <==> socket.outgoing == old(socket.outgoing) + sent.payload
      ensures socket.lastError == sendRet
      ensures socket.status == if sendRet == SUCCESS then old(socket.status) else Status.Error
    {
      var size := Min(txBuffer.Available(), WIFI_UDP_BUFFER_SIZE);
      var temp: seq<byte> := [];
      ghost var all := txBuffer.q;
      for i := 0 to size
        invariant Valid() && temp + txBuffer.q == all && |temp| == i
        invariant socket.outgoing == old(socket.outgoing) && socket.status == old(socket.status)
      {
        var c := txBuffer.ReadChar();
        temp := temp + [c];
      }
      assert temp == all;
      var n := socket.Send(temp, sendRet, willing);
      assert |socket.outgoing| == |old(socket.outgoing)| + n;
      assert n == size ==> temp[..n] == temp;
      return if n != size then 0 else 1, Datagram(temp, remote);
    }

    // ---------- receiving ----------

    /** The callback.  If receiving fails, the address is whatever was on the stack, here `junk`, and an
        empty packet is queued all the same. */
    method ReceiveCallback(recvRet: Result, payload: seq<byte>, sender: Address, junk: Address)
      requires Valid()
      modifies this`rxPackets, socket`status, socket`lastError, socket.rx
      ensures Valid()
      ensures rxPackets == old(rxPackets)
                           + [if recvRet == SUCCESS then Packet(Clip(payload), sender) else Packet([], junk)]
    {
      var taken := socket.ReceiveCallback(recvRet, payload);
      assert socket.rx.q == taken;
      var stored := DrainSocket();
      if recvRet == SUCCESS {
        ClipOfPrefix(payload, |taken|);
      }
      rxPackets := rxPackets + [Packet(stored, if recvRet == SUCCESS then sender else junk)];
    }

    /** All bytes of the socket's buffer move into the buffer of a packet, which drops those that do not fit. */
    method DrainSocket() returns (stored: seq<byte>)
      requires Valid0()
      modifies socket.rx
      ensures Valid() && stored == Clip(old(socket.rx.q))
    {
      ghost var all := socket.rx.q;
      var bytesReceived := socket.rx.Available();
      stored := [];
      for i := 0 to bytesReceived
        invariant Valid0() && socket.rx.q == all[i..] && stored == Clip(all[..i])
      {
        assert all[..i + 1] == all[..i] + [all[i]];
        var c := socket.rx.ReadChar();
        if |stored| < WIFI_UDP_BUFFER_SIZE {
          stored := stored + [c];
        }
      }
      assert all[..bytesReceived] == all;
    }

    /** `Valid`, but with bytes left in the buffer of the socket. */
    ghost predicate Valid0()
      reads this, socket, socket.rx, txBuffer
    {
      && socket.Valid() && socket.protocol == Udp
      && txBuffer.Valid() && txBuffer.cap == WIFI_UDP_BUFFER_SIZE && txBuffer != socket.rx
    }

    method ParsePacket() returns (n: nat)
      modifies this`currentPacket, this`rxPackets
      ensures old(rxPackets) == [] ==> rxPackets == [] && currentPacket == Packet([], NO_ADDRESS)
      ensures old(rxPackets) != [] ==>
                currentPacket == old(rxPackets)[0] && rxPackets == old(rxPackets)[1..]
      ensures n == |currentPacket.rx|
    {
      if |rxPackets| == 0 {
        currentPacket := Packet([], NO_ADDRESS);
        return 0;
      }
      currentPacket := rxPackets[0];
      rxPackets := rxPackets[1..];
      return |currentPacket.rx|;
    }

    method Read(buffer: array<byte>, len: nat) returns (r: int)
      requires len <= buffer.Length
      modifies this`currentPacket, buffer
      ensures currentPacket.sender == old(currentPacket.sender)
      ensures old(currentPacket.rx) == [] ==>
                r == -1 && currentPacket.rx == [] && buffer[..] == old(buffer[..])
      ensures old(currentPacket.rx) != [] ==>
                && r == Min(len, |old(currentPacket.rx)|)
                && buffer[..r] == old(currentPacket.rx)[..r] && currentPacket.rx == old(currentPacket.rx)[r..]
                && buffer[r..] == old(buffer[r..])
    {
      var rxAvailable := |currentPacket.rx|;
      if rxAvailable < 1 {
        return -1;
      }
      var n := if len > rxAvailable then rxAvailable else len;
      ghost var all := currentPacket.rx;
      for i := 0 to n
        invariant currentPacket.sender == old(currentPacket.sender)
        invariant currentPacket.rx == all[i..] && buffer[..i] == all[..i]
        invariant buffer[n..] == old(buffer[n..])
      {
        buffer[i] := currentPacket.rx[0];
        currentPacket := currentPacket.(rx := currentPacket.rx[1..]);
      }
      return n;
    }

    /** The one-byte `read`. */
    method ReadByte() returns (r: int)
      modifies this`currentPacket
      ensures currentPacket.sender == old(currentPacket.sender)
      ensures old(currentPacket.rx) == [] ==> r == -1 && currentPacket.rx == []
      ensures old(currentPacket.rx) != [] ==> [r] + currentPacket.rx == old(currentPacket.rx)
    {
      if |currentPacket.rx| < 1 {
        return -1;
      }
      var buffer := new byte[1];
      var n := Read(buffer, 1);
      assert buffer[..1] == [buffer[0]];
      return buffer[0];
    }
  }

  // ---------- a run of sends ----------

  datatype TxOp =
    | BeginOp(to: Address)
    | WriteOp(chunk: seq<byte>)
    | EndOp(sendRet: Result, willing: nat)

  /** The bytes offered to `write` since the last `beginPacket` or `endPacket`. */
  function OfferedSince(ops: seq<TxOp>): seq<byte> {
    if ops == [] then []
    else
      match ops[|ops| - 1]
      case WriteOp(chunk) => OfferedSince(ops[..|ops| - 1]) + chunk
      case _ => []
  }

  /** The address of the last `beginPacket`. */
  function Destination(ops: seq<TxOp>): Address {
    if ops == [] then NO_ADDRESS
    else
      match ops[|ops| - 1]
      case BeginOp(to) => to
      case _ => Destination(ops[..|ops| - 1])
  }

  /** The datagrams of a run: one for each `endPacket`, with the first 256 bytes offered since the packet
      was begun, however they were cut into `write` calls. */
  function Sent(ops: seq<TxOp>): seq<Datagram> {
    if ops == [] then []
    else
      var init := ops[..|ops| - 1];
      if ops[|ops| - 1].EndOp? then Sent(init) + [Datagram(Clip(OfferedSince(init)), Destination(init))]
      else Sent(init)
  }

  /** One call of the sketch; `sent` is the datagram it hands to the stack, if it is `endPacket`. */
  method HandleTx(udp: WiFiUdpClass, op: TxOp) returns (sent: seq<Datagram>)
    requires udp.Valid()
    modifies udp`remote, udp.txBuffer, udp.socket`status, udp.socket`lastError, udp.socket`outgoing
    ensures udp.Valid()
    ensures sent == if op.EndOp? then [Datagram(old(udp.txBuffer.q), old(udp.remote))] else []
    ensures udp.remote == if op.BeginOp? then op.to else old(udp.remote)
    ensures udp.txBuffer.q == if op.WriteOp? then Offer(WIFI_UDP_BUFFER_SIZE, old(udp.txBuffer.q), op.chunk) else []
  {
    sent := [];
    match op
    case BeginOp(to) =>
      var _ := udp.BeginPacket(to);
    case WriteOp(chunk) =>
      var _ := udp.Write(chunk);
    case EndOp(sendRet, willing) =>
      var r, d := udp.EndPacket(sendRet, willing);
      sent := [d];
  }

  /** What the object holds after a run of sends. */
  ghost predicate TxExplains(ops: seq<TxOp>, q: seq<byte>, remote: Address, sent: seq<Datagram>) {
    q == Clip(OfferedSince(ops)) && remote == Destination(ops) && sent == Sent(ops)
  }

  lemma TxNext(ops: seq<TxOp>, k: nat, q: seq<byte>, remote: Address, sent: seq<Datagram>)
    requires k < |ops| && TxExplains(ops[..k], q, remote, sent)
    ensures ops[k].BeginOp? ==> TxExplains(ops[..k + 1], [], ops[k].to, sent)
    ensures ops[k].WriteOp? ==> TxExplains(ops[..k + 1], Offer(WIFI_UDP_BUFFER_SIZE, q, ops[k].chunk), remote, sent)
    ensures ops[k].EndOp? ==> TxExplains(ops[..k + 1], [], remote, sent + [Datagram(q, remote)])
  {
    assert ops[..k + 1][..k] == ops[..k];
    if ops[k].WriteOp? {
      var before := OfferedSince(ops[..k]);
      assert Clip(before) == Offer(WIFI_UDP_BUFFER_SIZE, [], before);
      OfferInChunks(WIFI_UDP_BUFFER_SIZE, [], before, ops[k].chunk);
    }
  }

  /** Any run of `beginPacket`, `write` and `endPacket` hands exactly the datagrams `Sent` to the stack. */
  method ReplayTx(udp: WiFiUdpClass, ops: seq<TxOp>) returns (sent: seq<Datagram>)
    requires udp.Valid() && udp.txBuffer.q == [] && udp.remote == NO_ADDRESS
    modifies udp`remote, udp.txBuffer, udp.socket`status, udp.socket`lastError, udp.socket`outgoing
    ensures udp.Valid() && sent == Sent(ops)
  {
    sent := [];
    for k := 0 to |ops|
      invariant udp.Valid() && TxExplains(ops[..k], udp.txBuffer.q, udp.remote, sent)
    {
      TxNext(ops, k, udp.txBuffer.q, udp.remote, sent);
      var more := HandleTx(udp, ops[k]);
      sent := sent + more;
    }
    assert ops[..|ops|] == ops;
  }

  // ---------- a run of arrivals and reads ----------

  datatype RxOp =
    | Arrival(recvRet: Result, payload: seq<byte>, sender: Address, junk: Address)
    | Parse
    | ReadOp(len: nat)

  function Queued(op: RxOp): Packet
    requires op.Arrival?
  {
    if op.recvRet == SUCCESS then Packet(Clip(op.payload), op.sender) else Packet([], op.junk)
  }

  /** The callbacks of a run, in order. */
  function Arrivals(ops: seq<RxOp>): (arrivals: seq<RxOp>)
    ensures forall p :: 0 <= p < |arrivals| ==> arrivals[p].Arrival?
  {
    if ops == [] then []
    else
      var last := ops[|ops| - 1];
      Arrivals(ops[..|ops| - 1]) + if last.Arrival? then [last] else []
  }

  /** One packet for each of them. */
  function Arrived(ops: seq<RxOp>): (packets: seq<Packet>)
    ensures |packets| == |Arrivals(ops)|
  {
    var arrivals := Arrivals(ops);
    seq(|arrivals|, p requires 0 <= p < |arrivals| => Queued(arrivals[p]))
  }

  /** How many packets `parsePacket` has taken off the queue. */
  function Parsed(ops: seq<RxOp>): (n: nat)
    ensures n <= |Arrivals(ops)|
  {
    if ops == [] then 0
    else
      var init := ops[..|ops| - 1];
      if ops[|ops| - 1].Parse? && Parsed(init) < |Arrivals(init)| then Parsed(init) + 1 else Parsed(init)
  }

  /** The last `parsePacket` found a packet. */
  predicate Open(ops: seq<RxOp>)
    ensures Open(ops) ==> Parsed(ops) > 0
  {
    if ops == [] then false
    else
      var init := ops[..|ops| - 1];
      if ops[|ops| - 1].Parse? then Parsed(init) < |Arrivals(init)| else Open(init)
  }

  /** For each packet parsed, how many bytes the sketch asked for while it was the current one. */
  function Requests(ops: seq<RxOp>): (requests: seq<nat>)
    ensures |requests| == Parsed(ops)
  {
    if ops == [] then []
    else
      var init := ops[..|ops| - 1];
      var before := Requests(init);
      match ops[|ops| - 1]
      case Arrival(_, _, _, _) => before
      case Parse => if Parsed(init) < |Arrivals(init)| then before + [0] else before
      case ReadOp(len) => if Open(init) then Raised(before, len) else before
  }

  /** The last of some numbers raised by `n`. */
  function Raised(ns: seq<nat>, n: nat): (r: seq<nat>)
    requires ns != []
    ensures |r| == |ns|
  {
    ns[|ns| - 1 := ns[|ns| - 1] + n]
  }

  /** The first `n` bytes, or all if there are not as many. */
  function Front(rx: seq<byte>, n: nat): seq<byte> {
    rx[..Min(n, |rx|)]
  }

  function Back(rx: seq<byte>, n: nat): seq<byte> {
    rx[Min(n, |rx|)..]
  }

  /** The state of the receiver, exactly: of each packet parsed the sketch has got as many bytes as it asked for,
      from the start; the current packet is what is left of the last one, if the last parse found one, and
      otherwise empty; the packets not yet parsed wait in order. */
  ghost predicate Explained(arrived: seq<Packet>, requests: seq<nat>, open: bool,
                            outs: seq<seq<byte>>, current: Packet, queue: seq<Packet>) {
    && |outs| == |requests| <= |arrived| && (open ==> requests != [])
    && (forall p :: 0 <= p < |outs| ==> outs[p] == Front(arrived[p].rx, requests[p]))
    && current == (if open then LastRead(arrived, requests) else Packet([], NO_ADDRESS))
    && queue == arrived[|requests|..]
  }

  function LastRead(arrived: seq<Packet>, requests: seq<nat>): Packet
    requires 0 < |requests| <= |arrived|
  {
    var p := |requests| - 1;
    Packet(Back(arrived[p].rx, requests[p]), arrived[p].sender)
  }

  /** The state of the receiver after a run.  `outs[p]` is what the sketch read while packet `p` was the current one. */
  ghost predicate RxExplains(ops: seq<RxOp>, outs: seq<seq<byte>>, current: Packet, queue: seq<Packet>) {
    Explained(Arrived(ops), Requests(ops), Open(ops), outs, current, queue)
  }

  /** What one operation does to the current packet and the queue, `got` being what the sketch reads in it. */
  ghost predicate Served(op: RxOp, got: seq<byte>, current: Packet, queue: seq<Packet>,
                         current': Packet, queue': seq<Packet>) {
    match op
    case Arrival(_, _, _, _) => got == [] && current' == current && queue' == queue + [Queued(op)]
    case Parse =>
      got == [] && if queue == [] then queue' == [] && current' == Packet([], NO_ADDRESS)
                   else current' == queue[0] && queue' == queue[1..]
    case ReadOp(len) =>
      && queue' == queue && current'.sender == current.sender
      && got + current'.rx == current.rx && |got| == Min(len, |current.rx|)
  }

  method HandleRx(udp: WiFiUdpClass, op: RxOp) returns (got: seq<byte>)
    requires udp.Valid()
    modifies udp`rxPackets, udp`currentPacket, udp.socket`status, udp.socket`lastError, udp.socket.rx
    ensures udp.Valid()
    ensures Served(op, got, old(udp.currentPacket), old(udp.rxPackets), udp.currentPacket, udp.rxPackets)
  {
    got := [];
    match op
    case Arrival(recvRet, payload, sender, junk) =>
      udp.ReceiveCallback(recvRet, payload, sender, junk);
    case Parse =>
      var _ := udp.ParsePacket();
    case ReadOp(len) =>
      var buffer := new byte[len](_ => 0);
      var r := udp.Read(buffer, len);
      if r > 0 {
        got := buffer[..r];
      }
  }

  /** What one more operation adds to the account of a run. */
  lemma RxStep(ops: seq<RxOp>, k: nat)
    requires k < |ops|
    ensures var before, after := ops[..k], ops[..k + 1];
            var requests, found := Requests(before), Parsed(before) < |Arrivals(before)|;
            && Arrived(after) == Arrived(before) + (if ops[k].Arrival? then [Queued(ops[k])] else [])
            && Open(after) == (if ops[k].Parse? then found else Open(before))
            && Requests(after) == if ops[k].Parse? && found then requests + [0]
                                  else if ops[k].ReadOp? && Open(before) then Raised(requests, ops[k].len)
                                  else requests
  {
    assert ops[..k + 1][..k] == ops[..k];
  }

  lemma ArrivalNext(arrived: seq<Packet>, requests: seq<nat>, open: bool,
                    outs: seq<seq<byte>>, current: Packet, queue: seq<Packet>, packet: Packet)
    requires Explained(arrived, requests, open, outs, current, queue)
    ensures Explained(arrived + [packet], requests, open, outs, current, queue + [packet])
  {
  }

  lemma ParseFindsNone(arrived: seq<Packet>, requests: seq<nat>, open: bool,
                       outs: seq<seq<byte>>, current: Packet, queue: seq<Packet>)
    requires Explained(arrived, requests, open, outs, current, queue) && queue == []
    ensures |requests| == |arrived| && Explained(arrived, requests, false, outs, Packet([], NO_ADDRESS), [])
  {
  }

  lemma ParseFindsOne(arrived: seq<Packet>, requests: seq<nat>, open: bool,
                      outs: seq<seq<byte>>, current: Packet, queue: seq<Packet>)
    requires Explained(arrived, requests, open, outs, current, queue) && queue != []
    ensures |requests| < |arrived| && Explained(arrived, requests + [0], true, outs + [[]], queue[0], queue[1..])
  {
    assert queue[0] == arrived[|requests|];
    assert Front(queue[0].rx, 0) == [] && Back(queue[0].rx, 0) == queue[0].rx;
  }

  lemma ReadOfNone(arrived: seq<Packet>, requests: seq<nat>, outs: seq<seq<byte>>, current: Packet,
                   queue: seq<Packet>, got: seq<byte>, current': Packet)
    requires Explained(arrived, requests, false, outs, current, queue)
    requires got + current'.rx == current.rx && current'.sender == current.sender
    ensures got == [] && Explained(arrived, requests, false, outs, current', queue)
  {
    assert |got + current'.rx| == 0;
  }

  lemma ReadOfOne(arrived: seq<Packet>, requests: seq<nat>, outs: seq<seq<byte>>, current: Packet,
                  queue: seq<Packet>, len: nat, got: seq<byte>, current': Packet)
    requires Explained(arrived, requests, true, outs, current, queue)
    requires got + current'.rx == current.rx && current'.sender == current.sender
    requires |got| == Min(len, |current.rx|)
    ensures outs != []
    ensures Explained(arrived, Raised(requests, len), true, outs[|outs| - 1 := outs[|outs| - 1] + got], current', queue)
  {
    var p := |requests| - 1;
    SplitFurther(arrived[p].rx, requests[p], len, got, current'.rx);
  }

  lemma SplitFurther(rx: seq<byte>, asked: nat, len: nat, got: seq<byte>, rest: seq<byte>)
    requires got + rest == Back(rx, asked) && |got| == Min(len, |Back(rx, asked)|)
    ensures Front(rx, asked + len) == Front(rx, asked) + got
    ensures Back(rx, asked + len) == rest
  {
    var n := Min(asked, |rx|);
    assert rx == rx[..n] + (got + rest) == (rx[..n] + got) + rest;
    assert Min(asked + len, |rx|) == |rx[..n] + got|;
  }

  /** Books one operation: `found` tells whether a packet was waiting, and `got` is what was read. */
  method RxAccount(op: RxOp, found: bool, got: seq<byte>, outs: seq<seq<byte>>, open: bool,
                   ghost arrived: seq<Packet>, ghost requests: seq<nat>, ghost current: Packet, ghost queue: seq<Packet>,
                   ghost current': Packet, ghost queue': seq<Packet>)
    returns (outs': seq<seq<byte>>, open': bool, ghost arrived': seq<Packet>, ghost requests': seq<nat>)
    requires Explained(arrived, requests, open, outs, current, queue) && found == (queue != [])
    requires Served(op, got, current, queue, current', queue')
    ensures Explained(arrived', requests', open', outs', current', queue')
    ensures found == (|requests| < |arrived|) && open' == (if op.Parse? then found else open)
    ensures arrived' == arrived + (if op.Arrival? then [Queued(op)] else [])
    ensures requests' == if op.Parse? && found then requests + [0]
                         else if op.ReadOp? && open then Raised(requests, op.len) else requests
  {
    outs', open', arrived', requests' := outs, open, arrived, requests;
    assert |queue| == |arrived| - |requests|;
    match op
    case Arrival(_, _, _, _) =>
      ArrivalNext(arrived, requests, open, outs, current, queue, Queued(op));
      arrived' := arrived + [Queued(op)];
    case Parse =>
      open' := found;
      if found {
        ParseFindsOne(arrived, requests, open, outs, current, queue);
        outs', requests' := outs + [[]], requests + [0];
      } else {
        ParseFindsNone(arrived, requests, open, outs, current, queue);
      }
    case ReadOp(len) =>
      if open {
        ReadOfOne(arrived, requests, outs, current, queue, len, got, current');
        outs', requests' := outs[|outs| - 1 := outs[|outs| - 1] + got], Raised(requests, len);
      } else {
        ReadOfNone(arrived, requests, outs, current, queue, got, current');
      }
  }

  /** Packets stay apart and nothing of them is lost: for every run of callbacks, `parsePacket` and reads of
      any length, the sketch got exactly the first bytes of each packet, as many as it asked for while that
      packet was current; the current packet is the rest of it, with its sender; the others wait in order. */
  method ReplayRx(udp: WiFiUdpClass, ops: seq<RxOp>) returns (outs: seq<seq<byte>>)
    requires udp.Valid() && udp.rxPackets == [] && udp.currentPacket == Packet([], NO_ADDRESS)
    modifies udp`rxPackets, udp`currentPacket, udp.socket`status, udp.socket`lastError, udp.socket.rx
    ensures udp.Valid() && RxExplains(ops, outs, udp.currentPacket, udp.rxPackets)
  {
    outs := [];
    var open := false;
    ghost var arrived: seq<Packet>, requests: seq<nat> := [], [];
    for k := 0 to |ops|
      invariant udp.Valid() && Explained(arrived, requests, open, outs, udp.currentPacket, udp.rxPackets)
      invariant arrived == Arrived(ops[..k]) && requests == Requests(ops[..k]) && open == Open(ops[..k])
    {
      ghost var current, queue := udp.currentPacket, udp.rxPackets;
      var found := |udp.rxPackets| > 0;
      RxStep(ops, k);
      var got := HandleRx(udp, ops[k]);
      outs, open, arrived, requests := RxAccount(ops[k], found, got, outs, open, arrived, requests,
                                                 current, queue, udp.currentPacket, udp.rxPackets);
    }
    assert ops[..|ops|] == ops;
  }

  // ---------- end to end ----------

  lemma {:induction false} SentFits(ops: seq<TxOp>)
    ensures forall d :: d in Sent(ops) ==> |d.payload| <= 256
  {
    if ops != [] {
      SentFits(ops[..|ops| - 1]);
    }
  }

  /** The network delivers datagrams of the sender, in any order, dropping and repeating at will; receiving
      one may fail. */
  ghost predicate FromNetwork(tx: seq<TxOp>, rx: seq<RxOp>) {
    forall a :: a in rx && a.Arrival? && a.recvRet == SUCCESS ==> exists d :: d in Sent(tx) && d.payload == a.payload
  }

  lemma {:induction false} ArrivalsAreOps(rx: seq<RxOp>)
    ensures forall a :: a in Arrivals(rx) ==> a in rx
  {
    if rx != [] {
      ArrivalsAreOps(rx[..|rx| - 1]);
    }
  }

  /** Between two sketches using this class: in every run of the receiver, with any failures, the bytes read of
      the p-th packet are the first bytes of the p-th datagram that arrived, as many as were asked for, and
      so all of them if enough were asked for; a failed receive gives a packet without bytes.  Nothing is cut
      off, whatever the sizes of the writes and of the reads. */
  lemma EndToEnd(tx: seq<TxOp>, rx: seq<RxOp>, outs: seq<seq<byte>>, current: Packet, queue: seq<Packet>, p: nat)
    requires FromNetwork(tx, rx) && RxExplains(rx, outs, current, queue) && p < Parsed(rx)
    ensures var a, asked := Arrivals(rx)[p], Requests(rx)[p];
            var bytes := if a.recvRet == SUCCESS then a.payload else [];
            && outs[p] == Front(bytes, asked)
            && (asked >= |bytes| ==> outs[p] == bytes)
            && (a.recvRet == SUCCESS ==> exists d :: d in Sent(tx) && d.payload == bytes)
            && (Open(rx) && p == Parsed(rx) - 1 ==>
                  && current.rx == Back(bytes, asked)
                  && current.sender == if a.recvRet == SUCCESS then a.sender else a.junk)
  {
    var a := Arrivals(rx)[p];
    ArrivalsAreOps(rx);
    assert a in rx;
    assert outs[p] == Front(Arrived(rx)[p].rx, Requests(rx)[p]);
    if a.recvRet == SUCCESS {
      SentFits(tx);
      var d :| d in Sent(tx) && d.payload == a.payload;
      assert Clip(a.payload) == a.payload;
    }
  }

  /** In general a packet holds its whole datagram exactly when the datagram has at most 256 bytes. */
  lemma WholeIff(op: RxOp)
    requires op.Arrival? && op.recvRet == SUCCESS
    ensures Queued(op).rx == op.payload <==> |op.payload| <= 256
  {
  }
}
