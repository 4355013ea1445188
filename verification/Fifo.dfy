/**
 The bounded byte queue the core stores its traffic in, and the theory of runs of
 such a queue.

 `RingBufferN` belongs to the Arduino API and is not part of this repository, so
 `ByteFifo` states the contract the core relies on: `store_char` drops a byte when
 the queue is full, reads take the oldest byte, and the free space is the capacity
 minus the length.  Every operation is one atomic step.
 */
module Fifo {

  type byte = b: int | 0 <= b < 256

  function Min(a: nat, b: nat): nat {
    if a <= b then a else b
  }

  /** A queue of capacity `cap` after `chunk` was offered to it item by item, late items being dropped. */
  function Offer<T>(cap: nat, q: seq<T>, chunk: seq<T>): seq<T>
    requires |q| <= cap
  {
    q + chunk[..Min(|chunk|, cap - |q|)]
  }

  /** How a byte stream is cut into chunks makes no difference to what the queue keeps. */
  lemma OfferInChunks<T>(cap: nat, q: seq<T>, a: seq<T>, b: seq<T>)
    requires |q| <= cap
    ensures |Offer(cap, q, a)| <= cap
    ensures Offer(cap, Offer(cap, q, a), b) == Offer(cap, q, a + b)
  {
    if |a| <= cap - |q| {
      assert (q + a) + b[..Min(|b|, cap - |q| - |a|)] == q + (a + b)[..Min(|a + b|, cap - |q|)];
    } else {
      assert (a + b)[..cap - |q|] == a[..cap - |q|];
    }
  }

  class ByteFifo {
    const cap: nat
    var q: seq<byte>

    ghost predicate Valid()
      reads this
    {
      |q| <= cap
    }

    constructor (cap: nat)
      ensures Valid() && this.cap == cap && q == []
    {
      this.cap := cap;
      q := [];
    }

    function Available(): nat
      reads this
    {
      |q|
    }

    function AvailableForStore(): nat
      requires Valid()
      reads this
    {
      cap - |q|
    }

    predicate IsFull()
      reads this
    {
      |q| == cap
    }

    method StoreChar(c: byte)
      requires Valid()
      modifies this
      ensures Valid()
      ensures q == Offer(cap, old(q), [c])
    {
      if |q| < cap {
        q := q + [c];
      }
    }

    method ReadChar() returns (c: int)
      requires Valid()
      modifies this
      ensures Valid()
      ensures old(q) == [] ==> c == -1 && q == []
      ensures old(q) != [] ==> c == old(q)[0] && q == old(q)[1..]
    {
      if |q| == 0 {
        return -1;
      }
      c := q[0];
      q := q[1..];
    }

    method Clear()
      modifies this
      ensures Valid() && q == []
    {
      q := [];
    }
  }

  // ---------- runs of a bounded queue ----------

  /** What happens to a queue: a block arrives, or a reader asks for up to `count` items. */
  datatype Flow<T> = Put(block: seq<T>) | Take(count: nat)

  /** Number of items queued after a run, by counting alone. */
  function Level<T>(cap: nat, es: seq<Flow<T>>): (level: nat)
    ensures level <= cap
  {
    if es == [] then 0
    else
      var before := Level(cap, es[..|es| - 1]);
      match es[|es| - 1]
      case Put(block) => before + Min(|block|, cap - before)
      case Take(count) => before - Min(count, before)
  }

  /** Everything the queue accepted: of each block the prefix that fitted the free space. */
  function Accepted<T>(cap: nat, es: seq<Flow<T>>): seq<T> {
    if es == [] then []
    else
      var init := es[..|es| - 1];
      match es[|es| - 1]
      case Put(block) => Accepted(cap, init) + block[..Min(|block|, cap - Level(cap, init))]
      case Take(_) => Accepted(cap, init)
  }

  /** Number of items the reader got. */
  function Drained<T>(cap: nat, es: seq<Flow<T>>): nat {
    if es == [] then 0
    else
      var init := es[..|es| - 1];
      match es[|es| - 1]
      case Put(_) => Drained(cap, init)
      case Take(count) => Drained(cap, init) + Min(count, Level(cap, init))
  }

  /** Every block in full. */
  function Offered<T>(es: seq<Flow<T>>): seq<T> {
    if es == [] then []
    else
      var init := es[..|es| - 1];
      match es[|es| - 1]
      case Put(block) => Offered(init) + block
      case Take(_) => Offered(init)
  }

  /** One event served by a queue object: from `q` to `q'`, handing out `got`. */
  ghost predicate Serves<T>(cap: nat, e: Flow<T>, q: seq<T>, got: seq<T>, q': seq<T>)
    requires |q| <= cap
  {
    match e
    case Put(block) => got == [] && q' == Offer(cap, q, block)
    case Take(count) => |got| == Min(count, |q|) && got + q' == q
  }

  /** The run so far: `delivered` was handed out and `q` is still queued. */
  ghost predicate Explains<T>(cap: nat, es: seq<Flow<T>>, delivered: seq<T>, q: seq<T>) {
    && delivered + q == Accepted(cap, es)
    && |delivered| == Drained(cap, es)
    && |q| == Level(cap, es)
  }

  /** An object that serves every event keeps the run explained. */
  lemma ServeNext<T>(cap: nat, es: seq<Flow<T>>, k: nat, delivered: seq<T>, q: seq<T>, got: seq<T>, q': seq<T>)
    requires k < |es| && |q| <= cap
    requires Explains(cap, es[..k], delivered, q)
    requires Serves(cap, es[k], q, got, q')
    ensures Explains(cap, es[..k + 1], delivered + got, q')
  {
    assert es[..k + 1][..k] == es[..k];
    match es[k]
    case Put(block) =>
      var kept := block[..Min(|block|, cap - |q|)];
      assert delivered + (q + kept) == (delivered + q) + kept;
    case Take(_) =>
      assert (delivered + got) + q' == delivered + (got + q');
  }

  ghost predicate Fits<T>(cap: nat, es: seq<Flow<T>>, k: nat)
    requires k < |es|
  {
    es[k].Put? ==> Level(cap, es[..k]) + |es[k].block| <= cap
  }

  /** Items are conserved: accepted = handed out + still queued. */
  lemma {:induction false} Conservation<T>(cap: nat, es: seq<Flow<T>>)
    ensures |Accepted(cap, es)| == Drained(cap, es) + Level(cap, es)
    ensures |Accepted(cap, es)| <= |Offered(es)|
  {
    if es != [] {
      Conservation(cap, es[..|es| - 1]);
    }
  }

  /** A run loses nothing exactly when every block found room for itself on arrival. */
  lemma {:induction false} LossFreeIff<T>(cap: nat, es: seq<Flow<T>>)
    ensures Accepted(cap, es) == Offered(es) <==> forall k :: 0 <= k < |es| ==> Fits(cap, es, k)
  {
    if es == [] {
      return;
    }
    var last := |es| - 1;
    var init := es[..last];
    LossFreeIff(cap, init);
    Conservation(cap, init);
    forall k | 0 <= k < last
      ensures Fits(cap, es, k) <==> Fits(cap, init, k)
    {
      assert es[..k] == init[..k];
    }
    match es[last]
    case Take(_) =>
    case Put(block) =>
      var kept := block[..Min(|block|, cap - Level(cap, init))];
      if Level(cap, init) + |block| <= cap {
        assert kept == block && Fits(cap, es, last);
        if Accepted(cap, es) == Offered(es) {
          assert Accepted(cap, init) == Accepted(cap, es)[..|Accepted(cap, init)|] == Offered(init);
        }
      } else {
        assert !Fits(cap, es, last);
        assert |Accepted(cap, es)| < |Offered(es)|;
      }
  }
}
