/**
 The I2C object: bytes queued for a transmission, and bytes received as a slave or asked for as
 a master.  The hardware fills and empties `tempRx` and `tempTx`.
 */
module Wire {
  import opened Fifo

  const BUFFER_LENGTH: nat := 256

  /** How many bytes of a message of `n` the slave keeps when `free` places are free. */
  function Kept(n: nat, free: nat): nat {
    Min(n, (free + 1) / 2)
  }

  /** The answer codes of the hardware layer that `endTransmission` tells apart. */
  datatype BusResult = Success | NoDevicePullUp | NoDeviceNoPullUp | Timeout | Other

  class TwoWire {
    const rxBuffer: ByteFifo
    const txBuffer: ByteFifo
    const tempRx: array<byte>
    const tempTx: array<byte>
    var slaveAddress: nat

    ghost predicate Valid()
      reads this, rxBuffer, txBuffer
    {
      && rxBuffer.Valid() && rxBuffer.cap == BUFFER_LENGTH
      && txBuffer.Valid() && txBuffer.cap == BUFFER_LENGTH
      && rxBuffer != txBuffer && tempRx != tempTx
      && tempRx.Length == BUFFER_LENGTH && tempTx.Length == BUFFER_LENGTH
    }

    constructor ()
      ensures Valid() && rxBuffer.q == [] && txBuffer.q == []
    {
      rxBuffer := new ByteFifo(BUFFER_LENGTH);
      txBuffer := new ByteFifo(BUFFER_LENGTH);
      tempRx := new byte[BUFFER_LENGTH](_ => 0);
      tempTx := new byte[BUFFER_LENGTH](_ => 0);
      slaveAddress := 0;
    }

    // ---------- as a slave ----------

    /** A message of `readable` bytes lies in `tempRx`.  The loop compares its index, one byte wide, with
        the free space that shrinks as it stores; `reported` is what the sketch's callback is told. */
    method OnReceiveService(readable: nat) returns (reported: nat)
      requires Valid() && readable < 0x1_0000
      modifies rxBuffer
      ensures Valid() && reported == Min(readable, BUFFER_LENGTH)
      ensures rxBuffer.q == old(rxBuffer.q) + tempRx[..Kept(reported, BUFFER_LENGTH - |old(rxBuffer.q)|)]
    {
      var numBytes := if readable > BUFFER_LENGTH then BUFFER_LENGTH else readable;
      ghost var free := rxBuffer.AvailableForStore();
      var i: nat := 0;
      while i < numBytes
        invariant Valid() && i <= Kept(numBytes, free) <= 128
        invariant rxBuffer.q == old(rxBuffer.q) + tempRx[..i]
        decreases 256 - i
      {
        if i < rxBuffer.AvailableForStore() {
          rxBuffer.StoreChar(tempRx[i]);
        } else {
          break;
        }
        i := (i + 1) % 256;
      }
      return numBytes;
    }

    /** The master wants `writable` bytes: that many, or all there are, move to the front of `tempTx`. */
    method OnRequestService(writable: nat) returns (count: nat)
      requires Valid()
      modifies txBuffer, tempTx
      ensures Valid() && count == Min(writable, |old(txBuffer.q)|)
      ensures tempTx[..count] == old(txBuffer.q)[..count] && txBuffer.q == old(txBuffer.q)[count..]
      ensures tempTx[count..] == old(tempTx[count..])
    {
      var available := txBuffer.Available();
      count := if writable > available then available else writable;
      DrainTx(count);
    }

    method DrainTx(count: nat)
      requires Valid() && count <= |txBuffer.q|
      modifies txBuffer, tempTx
      ensures Valid()
      ensures tempTx[..count] == old(txBuffer.q)[..count] && txBuffer.q == old(txBuffer.q)[count..]
      ensures tempTx[count..] == old(tempTx[count..])
    {
      ghost var all := txBuffer.q;
      for i := 0 to count
        invariant Valid() && txBuffer.q == all[i..] && tempTx[..i] == all[..i]
        invariant tempTx[count..] == old(tempTx[count..])
      {
        var c := txBuffer.ReadChar();
        tempTx[i] := c;
      }
    }

    // ---------- as a master ----------

    method BeginTransmission(address: nat)
      requires Valid()
      modifies this`slaveAddress, txBuffer
      ensures Valid() && slaveAddress == address && txBuffer.q == []
    {
      slaveAddress := address;
      txBuffer.Clear();
    }

    method Write(data: byte) returns (n: nat)
      requires Valid()
      modifies txBuffer
      ensures Valid() && txBuffer.q == Offer(BUFFER_LENGTH, old(txBuffer.q), [data])
      ensures n == |txBuffer.q| - |old(txBuffer.q)|
    {
      if txBuffer.IsFull() {
        return 0;
      }
      txBuffer.StoreChar(data);
      return 1;
    }

    /** `sent` is what the hardware is given to write; it answers `result`. */
    method EndTransmission(result: BusResult) returns (code: nat, sent: seq<byte>)
      requires Valid()
      modifies txBuffer, tempTx
      ensures Valid() && sent == old(txBuffer.q) && txBuffer.q == []
      ensures code == 0 <==> result.Success?
      ensures code == 2 <==> result.NoDevicePullUp? || result.NoDeviceNoPullUp?
      ensures code == 5 <==> result.Timeout?
      ensures code in {0, 2, 4, 5}
    {
      var count := txBuffer.Available();
      DrainTx(count);
      sent := tempTx[..count];
      code := match result
              case Success => 0
              case NoDevicePullUp => 2
              case NoDeviceNoPullUp => 2
              case Timeout => 5
              case Other => 4;
    }

    /** `bytes` is what the bus delivers if the read succeeds.  The result counts bytes that were dropped: it is
        what was stored exactly if the read failed or all of them fitted. */
    method RequestFrom(quantity: nat, ok: bool, bytes: seq<byte>) returns (n: nat)
      requires Valid() && |bytes| == Min(quantity, BUFFER_LENGTH)
      modifies rxBuffer, tempRx
      ensures Valid()
      ensures n == if ok then |bytes| else 0
      ensures rxBuffer.q == if ok then Offer(BUFFER_LENGTH, old(rxBuffer.q), bytes) else old(rxBuffer.q)
      ensures n == |rxBuffer.q| - |old(rxBuffer.q)| <==> !ok || |old(rxBuffer.q)| + |bytes| <= BUFFER_LENGTH
    {
      var count := if quantity > BUFFER_LENGTH then BUFFER_LENGTH else quantity;
      if !ok {
        return 0;
      }
      forall k | 0 <= k < count {
        tempRx[k] := bytes[k];
      }
      ghost var before := rxBuffer.q;
      for i := 0 to count
        invariant Valid() && tempRx[..count] == bytes
        invariant rxBuffer.q == Offer(BUFFER_LENGTH, before, bytes[..i])
      {
        OfferInChunks(BUFFER_LENGTH, before, bytes[..i], [bytes[i]]);
        assert bytes[..i + 1] == bytes[..i] + [bytes[i]];
        rxBuffer.StoreChar(tempRx[i]);
      }
      assert bytes[..count] == bytes;
      return count;
    }
  }

  /** The slave's loop, as a recursion: it goes on while the index is below both the message and the free space left. */
  function Rounds(i: nat, n: nat, free: nat): nat
    requires i <= free
    decreases n - i
  {
    if i < n && i < free - i then Rounds(i + 1, n, free) else i
  }

  /** The loop stops at half of the free space, rounded up. */
  lemma {:induction false} RoundsAreHalf(i: nat, n: nat, free: nat)
    requires i <= Kept(n, free)
    ensures Rounds(i, n, free) == Kept(n, free)
    decreases n - i
  {
    if i < n && i < free - i {
      RoundsAreHalf(i + 1, n, free);
    }
  }

  /** A message is kept whole, and its callback told the truth, exactly when it fills at most half of the
      free space, rounded up; with an empty buffer that is 128 bytes. */
  lemma KeptWholeIff(n: nat, free: nat)
    requires free <= BUFFER_LENGTH
    ensures Rounds(0, n, free) == n <==> 2 * n <= free + 1
    ensures Rounds(0, n, BUFFER_LENGTH) == n <==> n <= 128
    ensures Rounds(0, n, free) <= 128
  {
    RoundsAreHalf(0, n, free);
    RoundsAreHalf(0, n, BUFFER_LENGTH);
  }
}
