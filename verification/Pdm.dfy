/**
 The ring buffer of the PDM microphone driver, and the driver object around it.

 The ring keeps one slot empty: a ring of capacity n + 1 holds up to n samples.
 `_ringHead` is the next slot to write, `_ringTail` the next slot to read.
 */
module PdmRing {
  import opened PdmSamples

  /** `_ringAvailable`, as an expression over the two indices. */
  function Distance(capacity: nat, head: nat, tail: nat): (d: nat)
    requires head < capacity && tail < capacity
    ensures d < capacity
  {
    if head >= tail then head - tail else capacity - tail + head
  }

  function Advance(capacity: nat, index: nat): (next: nat)
    requires index < capacity
    ensures next == if index + 1 == capacity then 0 else index + 1
  {
    (index + 1) % capacity
  }

  /** The samples from `tail` up to `head`, oldest first. */
  function Live(slots: seq<Sample>, head: nat, tail: nat): (live: seq<Sample>)
    requires head < |slots| && tail < |slots|
    ensures |live| == Distance(|slots|, head, tail)
  {
    if head >= tail then slots[tail..head] else slots[tail..] + slots[..head]
  }

  /** Writing the slot at `head` is invisible until the head moves. */
  lemma WriteIsPrivate(slots: seq<Sample>, head: nat, tail: nat, x: Sample)
    requires head < |slots| && tail < |slots|
    ensures Live(slots[head := x], head, tail) == Live(slots, head, tail)
  {
  }

  /** Moving the head over a slot publishes exactly the sample in it. */
  lemma HeadMove(slots: seq<Sample>, head: nat, tail: nat)
    requires head < |slots| && tail < |slots|
    requires Distance(|slots|, head, tail) < |slots| - 1
    ensures Live(slots, Advance(|slots|, head), tail) == Live(slots, head, tail) + [slots[head]]
  {
    var next := Advance(|slots|, head);
    if head < tail {
      assert slots[..head + 1] == slots[..head] + [slots[head]];
    } else if next == 0 {
      assert slots[tail..] == slots[tail..head] + [slots[head]];
    }
  }

  /** Moving the tail over a slot drops exactly the oldest sample. */
  lemma TailMove(slots: seq<Sample>, head: nat, tail: nat)
    requires head < |slots| && tail < |slots| && head != tail
    ensures Live(slots, head, tail)[0] == slots[tail]
    ensures Live(slots, head, Advance(|slots|, tail)) == Live(slots, head, tail)[1..]
  {
  }
}

module Pdm {
  import opened Fifo
  import opened PdmSamples
  import opened PdmRing

  const SIZEOF_DMA_BUFFER: nat := 128

  /** A block as the DMA engine delivers it. */
  type Block = b: seq<Sample16> | |b| == 128 witness seq(128, _ => 0)

  class PdmClass {
    var ringBuffer: array?<Sample>
    var ringHead: nat
    var ringTail: nat
    var ringCapacity: nat
    var initialized: bool
    var bufferInitialized: bool
    var wordLength: nat
    const dmaBuffer: array<byte>
    /** The samples waiting to be read, oldest first. */
    ghost var contents: seq<Sample>

    ghost predicate Valid()
      reads this, ringBuffer
    {
      && dmaBuffer.Length == 4 * SIZEOF_DMA_BUFFER
      && (ringBuffer == null ==> ringHead == ringTail == ringCapacity == 0)
      && (ringBuffer != null ==>
            ringBuffer.Length == ringCapacity && ringHead < ringCapacity && ringTail < ringCapacity)
      && (bufferInitialized <==> ringBuffer != null)
      && (initialized ==> bufferInitialized && wordLength == 16)
      && (!initialized ==> ringHead == ringTail == 0)
      && contents == (if ringBuffer == null then [] else Live(ringBuffer[..], ringHead, ringTail))
    }

    /** How many samples fit: the `bufferSize` of the last successful `setBufferSize`. */
    ghost function Size(): nat
      reads this`ringCapacity
    {
      if ringCapacity == 0 then 0 else ringCapacity - 1
    }

    constructor ()
      ensures Valid() && fresh(dmaBuffer)
      ensures !initialized && contents == [] && Size() == 0
    {
      ringBuffer := null;
      ringHead, ringTail, ringCapacity := 0, 0, 0;
      initialized, bufferInitialized := false, false;
      wordLength := 0;
      contents := [];
      dmaBuffer := new byte[4 * SIZEOF_DMA_BUFFER](_ => 0);
    }

    /** Must be called before `begin`, as its header says.  `mallocOk` is the heap's answer. */
    method SetBufferSize(bufferSize: nat, mallocOk: bool)
      requires Valid() && !initialized && bufferSize < 0x1_0000
      modifies this
      ensures Valid() && !initialized
      ensures bufferInitialized == mallocOk && contents == []
      ensures Size() == if mallocOk then bufferSize else 0
      ensures ringBuffer == null || fresh(ringBuffer)
    {
      ringBuffer := null;
      contents := [];
      ringCapacity := bufferSize + 1;
      if mallocOk {
        ringBuffer := new Sample[ringCapacity](_ => 0);
      }
      if ringBuffer != null {
        ringHead := 0;
        ringTail := 0;
        bufferInitialized := true;
      } else {
        ringCapacity := 0;
        bufferInitialized := false;
      }
    }

    /** `hardwareOk` lists the answers of the init, start and read_async calls, in order. */
    method Begin(hardwareOk: (bool, bool, bool)) returns (r: int)
      requires Valid()
      modifies this
      ensures Valid() && contents == old(contents) && Size() == old(Size())
      ensures ringBuffer == old(ringBuffer)
      ensures initialized == (old(initialized) || (bufferInitialized && hardwareOk == (true, true, true)))
      ensures r == if !bufferInitialized then -1 else if old(initialized) then 0
                   else if hardwareOk == (true, true, true) then 1 else -1
    {
      if !bufferInitialized {
        return -1;
      }
      if initialized {
        return 0;
      }
      wordLength := 16;
      if !hardwareOk.0 {
        return -1;
      }
      if !hardwareOk.1 {
        return -1;
      }
      if !hardwareOk.2 {
        return -1;
      }
      initialized := true;
      return 1;
    }

    method End()
      requires Valid()
      modifies this
      ensures Valid() && !initialized
      ensures old(initialized) ==> contents == [] && Size() == 0
      ensures !old(initialized) ==> contents == old(contents) && Size() == old(Size())
    {
      if !initialized {
        return;
      }
      ringBuffer := null;
      contents := [];
      ringHead := 0;
      ringTail := 0;
      ringCapacity := 0;
      initialized := false;
      bufferInitialized := false;
    }

    method RingAvailable() returns (n: nat)
      requires Valid()
      ensures n == |contents|
    {
      var head, tail := ringHead, ringTail;
      if head >= tail {
        n := head - tail;
      } else {
        n := ringCapacity - tail + head;
      }
    }

    method RingFree() returns (n: nat)
      requires Valid() && ringBuffer != null
      ensures |contents| <= Size() && n == Size() - |contents|
    {
      var available := RingAvailable();
      n := ringCapacity - available - 1;
    }

    /** One round of the loop of `_ringWrite`. */
    method WriteSlot(x: Sample)
      requires Valid() && initialized && ringBuffer != null && |contents| < Size()
      modifies `ringHead, `contents, ringBuffer
      ensures Valid() && Size() == old(Size())
      ensures contents == old(contents) + [x]
    {
      WriteIsPrivate(ringBuffer[..], ringHead, ringTail, x);
      ringBuffer[ringHead] := x;
      HeadMove(ringBuffer[..], ringHead, ringTail);
      ringHead := Advance(ringCapacity, ringHead);
      contents := contents + [x];
    }

    /** One round of the loop of `_ringRead`. */
    method ReadSlot() returns (x: Sample)
      requires Valid() && contents != []
      modifies `ringTail, `contents
      ensures Valid() && Size() == old(Size())
      ensures x == old(contents)[0] && contents == old(contents)[1..]
    {
      TailMove(ringBuffer[..], ringHead, ringTail);
      x := ringBuffer[ringTail];
      ringTail := Advance(ringCapacity, ringTail);
      contents := contents[1..];
    }

    method RingWrite(data: seq<Sample>, count: nat) returns (written: nat)
      requires Valid() && initialized && ringBuffer != null && count <= |data|
      modifies `ringHead, `contents, ringBuffer
      ensures Valid() && Size() == old(Size())
      ensures written == Min(count, old(Size() - |contents|))
      ensures contents == Offer(Size(), old(contents), data[..count])
    {
      var freeSpace := RingFree();
      var n := count;
      if n > freeSpace {
        n := freeSpace;
      }
      var i := 0;
      while i < n
        invariant 0 <= i <= n && Valid()
        invariant contents == old(contents) + data[..i]
      {
        assert data[..i + 1] == data[..i] + [data[i]];
        WriteSlot(data[i]);
        i := i + 1;
      }
      assert data[..n] == data[..count][..n];
      return n;
    }

    method RingRead(data: array<Sample>, count: nat) returns (n: nat)
      requires Valid() && data != ringBuffer && count <= data.Length
      modifies `ringTail, `contents, data
      ensures Valid() && Size() == old(Size())
      ensures n == Min(count, |old(contents)|)
      ensures data[..n] == old(contents)[..n] && contents == old(contents)[n..]
      ensures forall j :: n <= j < data.Length ==> data[j] == old(data[j])
    {
      var available := RingAvailable();
      n := count;
      if n > available {
        n := available;
      }
      ghost var before := contents;
      var i := 0;
      while i < n
        invariant 0 <= i <= n && Valid()
        invariant contents == before[i..] && data[..i] == before[..i]
        invariant forall j :: n <= j < data.Length ==> data[j] == old(data[j])
      {
        var x := ReadSlot();
        data[i] := x;
        i := i + 1;
        assert before[i - 1..][1..] == before[i..];
      }
    }

    /** A `read` into an array of the sketch's own. */
    method ReadUpTo(count: nat) returns (got: seq<Sample>)
      requires Valid()
      modifies `ringTail, `contents
      ensures Valid() && Size() == old(Size())
      ensures |got| == Min(count, |old(contents)|) && got + contents == old(contents)
    {
      var data := new Sample[count](_ => 0);
      ghost var before := contents;
      var n := RingRead(data, count);
      got := data[..n];
      assert before == before[..n] + before[n..];
    }

    /** A DMA transfer of one block completes and the interrupt moves it into the ring. */
    method DmaComplete(block: Block)
      requires Valid() && initialized && ringBuffer != null
      modifies `ringHead, `contents, ringBuffer, dmaBuffer
      ensures Valid() && Size() == old(Size())
      ensures contents == Offer(Size(), old(contents), block)
    {
      FillByDma(dmaBuffer, block);
      OnReceiveService(block);
    }

    method OnReceiveService(ghost block: Block)
      requires Valid() && initialized && ringBuffer != null
      requires forall i :: 0 <= i < |block| ==> Half(dmaBuffer[..], i) == block[i]
      modifies `ringHead, `contents, ringBuffer, dmaBuffer
      ensures Valid() && Size() == old(Size())
      ensures contents == Offer(Size(), old(contents), block)
    {
      if wordLength <= 16 {
        WidenInPlace(dmaBuffer);
      }
      var samples := Words(dmaBuffer[..]);
      assert samples == block;
      var _ := RingWrite(samples, SIZEOF_DMA_BUFFER);
    }
  }

  /** What the ring sees: a completed DMA block of 128 16-bit samples, or a `read`. */
  ghost predicate PdmEvent(e: Flow<Sample>) {
    e.Put? ==> |e.block| == SIZEOF_DMA_BUFFER && forall x :: x in e.block ==> -0x8000 <= x < 0x8000
  }

  method HandleEvent(pdm: PdmClass, e: Flow<Sample>) returns (got: seq<Sample>)
    requires pdm.Valid() && pdm.initialized && pdm.ringBuffer != null && PdmEvent(e)
    modifies pdm`ringHead, pdm`ringTail, pdm`contents, pdm.ringBuffer, pdm.dmaBuffer
    ensures pdm.Valid() && pdm.Size() == old(pdm.Size())
    ensures |old(pdm.contents)| <= pdm.Size() && Serves(pdm.Size(), e, old(pdm.contents), got, pdm.contents)
  {
    match e
    case Put(block) =>
      assert forall i :: 0 <= i < |block| ==> block[i] in block;
      pdm.DmaComplete(block);
      got := [];
    case Take(count) =>
      got := pdm.ReadUpTo(count);
  }

  /** Any run of DMA completions and reads, in any order, with any request sizes: what the sketch
      was given, followed by what is still buffered, is what the ring accepted. */
  method Replay(pdm: PdmClass, es: seq<Flow<Sample>>) returns (delivered: seq<Sample>)
    requires pdm.Valid() && pdm.initialized && pdm.ringBuffer != null && pdm.contents == []
    requires forall e :: e in es ==> PdmEvent(e)
    modifies pdm`ringHead, pdm`ringTail, pdm`contents, pdm.ringBuffer, pdm.dmaBuffer
    ensures pdm.Valid() && pdm.Size() == old(pdm.Size())
    ensures Explains(pdm.Size(), es, delivered, pdm.contents)
  {
    delivered := [];
    ghost var n := pdm.Size();
    for k := 0 to |es|
      invariant pdm.Valid() && pdm.Size() == n && |pdm.contents| <= n
      invariant Explains(n, es[..k], delivered, pdm.contents)
    {
      ghost var q := pdm.contents;
      var got := HandleEvent(pdm, es[k]);
      ServeNext(n, es, k, delivered, q, got, pdm.contents);
      delivered := delivered + got;
    }
    assert es[..|es|] == es;
  }

  /** The reader is at most one block behind whenever a block arrives. */
  ghost predicate OneBlockBehind(size: nat, es: seq<Flow<Sample>>) {
    forall k :: 0 <= k < |es| && es[k].Put? ==>
      |es[k].block| == SIZEOF_DMA_BUFFER && Level(size, es[..k]) <= SIZEOF_DMA_BUFFER
  }

  /** The recommended size is exact: a reader that is never more than a block behind loses no sample, in any
      run, if and only if the ring holds two blocks. */
  lemma TwoBlocksAreReliable(size: nat)
    ensures (forall es: seq<Flow<Sample>> :: OneBlockBehind(size, es) ==> Accepted(size, es) == Offered(es))
            <==> size >= 2 * SIZEOF_DMA_BUFFER
  {
    if size >= 2 * SIZEOF_DMA_BUFFER {
      forall es: seq<Flow<Sample>> | OneBlockBehind(size, es)
        ensures Accepted(size, es) == Offered(es)
      {
        LossFreeIff(size, es);
      }
    } else {
      var b: seq<Sample> := seq(SIZEOF_DMA_BUFFER, _ => 0);
      var es: seq<Flow<Sample>> := [Put(b), Put(b)];
      assert es[..0] == [] && es[..1] == [Put(b)];
      assert Level(size, es[..1]) == Min(SIZEOF_DMA_BUFFER, size);
      assert OneBlockBehind(size, es);
      assert !Fits(size, es, 1);
      LossFreeIff(size, es);
    }
  }
}
