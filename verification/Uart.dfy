/**
 The serial port: writing a buffer in chunks with a timeout, and the receive interrupt.

 The hardware is a record of what it answers in each round: how many bytes it can take, whether
 the write succeeds, and how many bytes it takes of those it is offered, also if it fails in the
 end.  Time is the wrapping clock of module `Clock`: round `k` ends with a look at the clock at
 true time `polls(k + 1)`.
 */
module Uart {
  import opened Common
  import opened Fifo
  import opened Clock

  const TIMEOUT_MS: uint32 := 500
  const BUFFER_LENGTH: nat := 512

  datatype Round = Round(writable: nat, ok: bool, taken: nat)

  /** Which rounds end after the timeout. */
  function TimeIsUp(phase: uint32, polls: nat -> nat): nat -> bool {
    (k: nat) => MillisDone(phase, polls(k + 1), TIMEOUT_MS)
  }

  /** Round `k` fails, with `left` bytes to write: a round that offers nothing cannot. */
  predicate Fails(round: nat -> Round, k: nat, left: nat) {
    !round(k).ok && round(k).writable > 0 && left > 0
  }

  /** `sent[k]` is how many bytes of a write of `size` the hardware has got before round `k`: in each round it gets as
      many as it takes, has room for, and are left, whichever is least.  No round but the last sent all
      or failed or ended after the timeout. */
  ghost predicate Rounds(size: nat, timedOut: nat -> bool, round: nat -> Round, sent: seq<nat>) {
    && sent != [] && sent[0] == 0
    && (forall k :: 0 <= k < |sent| ==> sent[k] <= size)
    && (forall k :: 0 <= k < |sent| - 1 ==> RoundAdds(size, round, sent, k))
    && forall k :: 0 <= k < |sent| - 2 ==> GoesOn(size, timedOut, round, sent, k)
  }

  ghost predicate RoundAdds(size: nat, round: nat -> Round, sent: seq<nat>, k: nat)
    requires k + 1 < |sent| && sent[k] <= size
  {
    sent[k + 1] == sent[k] + Min(round(k).taken, Min(round(k).writable, size - sent[k]))
  }

  /** After round `k` the loop asks again: bytes are left, nothing failed and the time is not over. */
  ghost predicate GoesOn(size: nat, timedOut: nat -> bool, round: nat -> Round, sent: seq<nat>, k: nat)
    requires k + 1 < |sent| && sent[k] <= size
  {
    sent[k + 1] < size && !Fails(round, k, size - sent[k]) && !timedOut(k)
  }

  /** A finished write: the hardware has the bytes of all rounds, in order.  The result leaves out those of a last
      round that failed, so it is right unless that round failed part way; and bytes are missing only after a
      failure or the timeout. */
  ghost predicate WriteDone(buffer: seq<byte>, timedOut: nat -> bool, round: nat -> Round,
                            sent: seq<nat>, n: nat, received: seq<byte>) {
    && Rounds(|buffer|, timedOut, round, sent) && |sent| >= 2
    && received == buffer[..sent[|sent| - 1]]
    && var last := |sent| - 2;
       var failed := Fails(round, last, |buffer| - sent[last]);
       && n == (if failed then sent[last] else sent[last + 1])
       && (received == buffer[..n] <==> !(failed && sent[last + 1] > sent[last]))
       && (n < |buffer| ==> failed || timedOut(last))
  }

  class UartClass {
    const rxBuffer: ByteFifo

    ghost predicate Valid()
      reads this, rxBuffer
    {
      rxBuffer.Valid() && rxBuffer.cap == BUFFER_LENGTH
    }

    constructor ()
      ensures Valid() && fresh(rxBuffer) && rxBuffer.q == []
    {
      rxBuffer := new ByteFifo(BUFFER_LENGTH);
    }

    /** Every byte the hardware has is read; those that do not fit are dropped. */
    method IrqHandler(readable: seq<byte>)
      requires Valid()
      modifies rxBuffer
      ensures Valid() && rxBuffer.q == Offer(BUFFER_LENGTH, old(rxBuffer.q), readable)
    {
      ghost var before := rxBuffer.q;
      var pending := readable;
      ghost var seen := 0;
      while |pending| > 0
        invariant seen <= |readable| && pending == readable[seen..]
        invariant Valid() && rxBuffer.q == Offer(BUFFER_LENGTH, before, readable[..seen])
        decreases |pending|
      {
        var c := pending[0];
        pending := pending[1..];
        OfferInChunks(BUFFER_LENGTH, before, readable[..seen], [c]);
        assert readable[..seen + 1] == readable[..seen] + [c];
        if rxBuffer.AvailableForStore() > 0 {
          rxBuffer.StoreChar(c);
        }
        seen := seen + 1;
      }
      assert readable[..seen] == readable;
    }

    method Read() returns (c: int)
      requires Valid()
      modifies rxBuffer
      ensures Valid()
      ensures old(rxBuffer.q) == [] ==> c == -1 && rxBuffer.q == []
      ensures old(rxBuffer.q) != [] ==> [c] + rxBuffer.q == old(rxBuffer.q)
    {
      if rxBuffer.Available() == 0 {
        return -1;
      }
      c := rxBuffer.ReadChar();
    }
  }

  /** `write`.  `received` is what the hardware got, and `sent` how much of it before each round.  All that is assumed
      is that the clock advances and is looked at at least every `g` ticks, which can be more than an hour. */
  method Write(buffer: seq<byte>, phase: uint32, polls: nat -> nat, round: nat -> Round, ghost g: nat)
    returns (n: nat, received: seq<byte>, ghost sent: seq<nat>)
    requires Advances(polls, g) && 1000 * TIMEOUT_MS + g <= TWO32 - 1000
    ensures WriteDone(buffer, TimeIsUp(phase, polls), round, sent, n, received)
  {
    ghost var last := DelayOnTime(phase, polls, TIMEOUT_MS, g);
    n, received, sent := WriteLoop(buffer, TimeIsUp(phase, polls), round, last - 1);
  }

  /** The loop of `write`. */
  method WriteLoop(buffer: seq<byte>, timedOut: nat -> bool, round: nat -> Round, ghost bound: nat)
    returns (n: nat, received: seq<byte>, ghost sent: seq<nat>)
    requires timedOut(bound)
    ensures WriteDone(buffer, timedOut, round, sent, n, received)
  {
    var leftToWrite: nat := |buffer|;
    var at: nat, rounds: nat := 0, 0;
    received := [];
    sent := [0];
    while true
      invariant at + leftToWrite == |buffer| && received == buffer[..at] && rounds <= bound
      invariant Continuing(|buffer|, timedOut, round, sent, rounds, at)
      decreases bound - rounds
    {
      var failed, taken;
      failed, taken, received, sent := WriteRound(buffer, timedOut, round, rounds, at, received, sent);
      rounds := rounds + 1;
      if failed {
        break;
      }
      leftToWrite := leftToWrite - taken;
      at := at + taken;
      if leftToWrite == 0 || timedOut(rounds - 1) {
        break;
      }
    }
    return |buffer| - leftToWrite, received, sent;
  }

  /** One round of it, with the account of the write kept. */
  method WriteRound(buffer: seq<byte>, ghost timedOut: nat -> bool, round: nat -> Round, rounds: nat, at: nat,
                    received: seq<byte>, ghost sent: seq<nat>)
    returns (failed: bool, taken: nat, received': seq<byte>, ghost sent': seq<nat>)
    requires at <= |buffer| && received == buffer[..at]
    requires Continuing(|buffer|, timedOut, round, sent, rounds, at)
    ensures at + taken <= |buffer| && received' == buffer[..at + taken]
    ensures if failed then WriteDone(buffer, timedOut, round, sent', at, received')
            else if at + taken == |buffer| || timedOut(rounds)
            then WriteDone(buffer, timedOut, round, sent', at + taken, received')
            else Continuing(|buffer|, timedOut, round, sent', rounds + 1, at + taken)
  {
    failed, taken := WriteChunk(round, rounds, |buffer| - at);
    PrefixGrows(buffer, at, taken);
    RoundEnds(buffer, timedOut, round, sent, rounds, at);
    received' := received + buffer[at..at + taken];
    sent' := sent + [at + taken];
  }

  /** `rounds` rounds are over, each of which went on, and `at` bytes are sent. */
  ghost predicate Continuing(size: nat, timedOut: nat -> bool, round: nat -> Round, sent: seq<nat>, rounds: nat, at: nat) {
    && Rounds(size, timedOut, round, sent) && |sent| == rounds + 1 && sent[rounds] == at
    && (rounds > 0 ==> GoesOn(size, timedOut, round, sent, rounds - 1))
  }

  /** The next round ends the write, or all that is said of the rounds so far holds of it too. */
  lemma RoundEnds(buffer: seq<byte>, timedOut: nat -> bool, round: nat -> Round, sent: seq<nat>, rounds: nat, at: nat)
    requires at <= |buffer| && Continuing(|buffer|, timedOut, round, sent, rounds, at)
    ensures var left := |buffer| - at;
            var taken := Min(round(rounds).taken, Min(round(rounds).writable, left));
            var sent' := sent + [at + taken];
            if Fails(round, rounds, left) then WriteDone(buffer, timedOut, round, sent', at, buffer[..at + taken])
            else if at + taken == |buffer| || timedOut(rounds)
            then WriteDone(buffer, timedOut, round, sent', at + taken, buffer[..at + taken])
            else Continuing(|buffer|, timedOut, round, sent', rounds + 1, at + taken)
  {
    var taken := Min(round(rounds).taken, Min(round(rounds).writable, |buffer| - at));
    PrefixGrows(buffer, at, taken);
    RoundsGrow(|buffer|, timedOut, round, sent, rounds, at, at + taken);
  }

  lemma RoundsGrow(size: nat, timedOut: nat -> bool, round: nat -> Round, sent: seq<nat>, rounds: nat, at: nat, next: nat)
    requires at <= size && Continuing(size, timedOut, round, sent, rounds, at)
    requires next == at + Min(round(rounds).taken, Min(round(rounds).writable, size - at))
    ensures Rounds(size, timedOut, round, sent + [next])
  {
    var sent' := sent + [next];
    forall k | 0 <= k < |sent'| - 2
      ensures GoesOn(size, timedOut, round, sent', k)
    {
      assert GoesOn(size, timedOut, round, sent, k);
    }
    forall k | 0 <= k < |sent'| - 1
      ensures RoundAdds(size, round, sent', k)
    {
      assert k < |sent| - 1 ==> RoundAdds(size, round, sent, k);
    }
  }

  lemma PrefixGrows(buffer: seq<byte>, at: nat, taken: nat)
    requires at + taken <= |buffer|
    ensures buffer[..at] + buffer[at..at + taken] == buffer[..at + taken]
    ensures buffer[..at + taken] == buffer[..at] <==> taken == 0
  {
    assert |buffer[..at + taken]| == at + taken;
  }

  /** One round: the hardware is offered what it can take, unless that is nothing. */
  method WriteChunk(round: nat -> Round, k: nat, left: nat) returns (failed: bool, taken: nat)
    ensures failed == Fails(round, k, left)
    ensures taken == Min(round(k).taken, Min(round(k).writable, left))
  {
    var answer := round(k);
    var bytesToWrite := if left > answer.writable then answer.writable else left;
    if bytesToWrite > 0 {
      return !answer.ok, Min(answer.taken, bytesToWrite);
    }
    return false, 0;
  }

  /** The hardware never fails and takes at least `w` bytes in each round, if there are as many. */
  ghost predicate Takes(round: nat -> Round, w: nat) {
    forall k: nat :: round(k).ok && round(k).taken >= w && round(k).writable >= w
  }

  lemma {:induction false} SentInTime(size: nat, timedOut: nat -> bool, round: nat -> Round, sent: seq<nat>, w: nat, k: nat)
    requires Rounds(size, timedOut, round, sent) && Takes(round, w) && k < |sent|
    ensures sent[k] == size || sent[k] >= k * w
  {
    if k > 0 {
      SentInTime(size, timedOut, round, sent, w, k - 1);
      assert RoundAdds(size, round, sent, k - 1);
      assert k * w == (k - 1) * w + w;
    }
  }

  /** A write of any length is cut into as many rounds as it needs: if the hardware never fails and takes at least `w` > 0
      bytes in each round, and the time is not up before the rounds in which `w` at a time would do, then
      every byte is sent, and the result says so. */
  lemma AllIsSent(buffer: seq<byte>, timedOut: nat -> bool, round: nat -> Round, sent: seq<nat>, n: nat,
                  received: seq<byte>, w: nat)
    requires WriteDone(buffer, timedOut, round, sent, n, received) && w > 0 && Takes(round, w)
    requires forall k: nat :: (k + 1) * w < |buffer| ==> !timedOut(k)
    ensures n == |buffer| && received == buffer
  {
    var last := |sent| - 2;
    assert round(last).ok;
    SentInTime(|buffer|, timedOut, round, sent, w, last + 1);
    assert (last + 1) * w < |buffer| ==> !timedOut(last);
    assert buffer[..|buffer|] == buffer;
  }

  /** The count can be wrong: of ten bytes the hardware takes four and then fails, and `write` returns 0. */
  lemma CountMissesFailedBytes(buffer: seq<byte>, timedOut: nat -> bool, round: nat -> Round, sent: seq<nat>, n: nat,
                               received: seq<byte>)
    requires WriteDone(buffer, timedOut, round, sent, n, received)
    requires |buffer| == 10 && round(0) == Round(10, false, 4)
    ensures n == 0 && received == buffer[..4]
  {
    assert !GoesOn(|buffer|, timedOut, round, sent, 0);
    assert |sent| == 2;
    assert RoundAdds(|buffer|, round, sent, 0);
  }
}
