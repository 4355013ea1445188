/**
 The ring buffer of the PDM driver with the interrupt and the sketch running at the same
 time, one memory access at a time.

 The producer is `_ringWrite`, the consumer `_ringRead`.  Each action of the scheduler lets
 one of them take its next step, and a step touches at most one location the other side
 can see: an index read, a slot access, or an index update.  What a side read of the other
 side's index may be out of date by the time it is used.
 */
module PdmInterleaving {
  import opened Fifo
  import opened PdmSamples
  import opened PdmRing

  /** Where the producer stands inside `_ringWrite(data, |data|)`. */
  datatype Producer =
    | WriteIdle
    | SawOwnHead(data: seq<Sample>, head: nat)
    | AtSlot(data: seq<Sample>, count: nat, i: nat)
    | SlotWritten(data: seq<Sample>, count: nat, i: nat)

  /** Where the consumer stands inside `_ringRead`; `got` is what it has put into the caller's array. */
  datatype Consumer =
    | ReadIdle
    | SawOtherHead(want: nat, head: nat)
    | BeforeSlot(count: nat, got: seq<Sample>)
    | SlotRead(count: nat, got: seq<Sample>)

  /** The shared memory and both program counters, with the history of the two sides:
      `accepted` grows when a sample is stored in a slot, `delivered` when one is copied out.
      `stored` and `handed` hold what the finished calls reported. */
  datatype State = State(
    slots: seq<Sample>, head: nat, tail: nat,
    producer: Producer, consumer: Consumer,
    accepted: seq<Sample>, delivered: seq<Sample>,
    stored: seq<Write>, handed: seq<seq<Sample>>)

  /** A finished `_ringWrite` of `data` that returned `count`. */
  datatype Write = Write(data: seq<Sample>, count: nat)

  /** The scheduler runs one side; an idle side starts a new call with the given argument. */
  datatype Action = Produce(data: seq<Sample>) | Consume(want: nat)

  ghost predicate InRange(s: State) {
    s.head < |s.slots| && s.tail < |s.slots|
  }

  function Started(slots: seq<Sample>): State {
    State(slots, 0, 0, WriteIdle, ReadIdle, [], [], [], [])
  }

  function ProducerStep(s: State, data: seq<Sample>): State
    requires Wf(s)
  {
    var capacity := |s.slots|;
    match s.producer
    case WriteIdle =>
      s.(producer := SawOwnHead(data, s.head))
    case SawOwnHead(d, head) =>
      s.(producer := AtSlot(d, Min(|d|, capacity - Distance(capacity, head, s.tail) - 1), 0))
    case AtSlot(d, count, i) =>
      if i == count then
        s.(producer := WriteIdle, stored := s.stored + [Write(d, count)])
      else
        s.(slots := s.slots[s.head := d[i]], accepted := s.accepted + [d[i]],
           producer := SlotWritten(d, count, i))
    case SlotWritten(d, count, i) =>
      s.(head := Advance(capacity, s.head), producer := AtSlot(d, count, i + 1))
  }

  function ConsumerStep(s: State, want: nat): State
    requires Wf(s)
  {
    var capacity := |s.slots|;
    match s.consumer
    case ReadIdle =>
      s.(consumer := SawOtherHead(want, s.head))
    case SawOtherHead(w, head) =>
      s.(consumer := BeforeSlot(Min(w, Distance(capacity, head, s.tail)), []))
    case BeforeSlot(count, got) =>
      if |got| == count then
        s.(consumer := ReadIdle, handed := s.handed + [got])
      else
        s.(consumer := SlotRead(count, got + [s.slots[s.tail]]),
           delivered := s.delivered + [s.slots[s.tail]])
    case SlotRead(count, got) =>
      s.(tail := Advance(capacity, s.tail), consumer := BeforeSlot(count, got))
  }

  // ---------- the invariant ----------

  /** What the finished calls of the producer stored. */
  function Taken(stored: seq<Write>): seq<Sample> {
    if stored == [] then []
    else
      var w := stored[|stored| - 1];
      Taken(stored[..|stored| - 1]) + w.data[..Min(w.count, |w.data|)]
  }

  function Concat(handed: seq<seq<Sample>>): seq<Sample> {
    if handed == [] then [] else Concat(handed[..|handed| - 1]) + handed[|handed| - 1]
  }

  /** What the call in progress has stored. */
  function TakenNow(p: Producer): seq<Sample> {
    match p
    case AtSlot(data, _, i) => data[..Min(i, |data|)]
    case SlotWritten(data, _, i) => data[..Min(i + 1, |data|)]
    case _ => []
  }

  function GotNow(c: Consumer): seq<Sample> {
    if c.BeforeSlot? || c.SlotRead? then c.got else []
  }

  ghost predicate ProducerOk(s: State)
    requires InRange(s)
  {
    var capacity := |s.slots|;
    var used := Distance(capacity, s.head, s.tail);
    match s.producer
    case WriteIdle => true
    case SawOwnHead(_, head) => head == s.head
    case AtSlot(data, count, i) =>
      i <= count <= |data| && used + (count - i) < capacity
    case SlotWritten(data, count, i) =>
      i < count <= |data| && used + (count - i) < capacity
  }

  ghost predicate ConsumerOk(s: State)
    requires InRange(s)
  {
    var capacity := |s.slots|;
    var used := Distance(capacity, s.head, s.tail);
    match s.consumer
    case ReadIdle => true
    case SawOtherHead(_, head) => head < capacity && Distance(capacity, head, s.tail) <= used
    case BeforeSlot(count, got) => |got| <= count <= |got| + used
    case SlotRead(count, got) => |got| <= count < |got| + used
  }

  /** A stored sample stays in its slot until it is published. */
  ghost predicate UnpublishedOk(s: State)
    requires Wf(s)
  {
    s.producer.SlotWritten? ==> s.slots[s.head] == s.producer.data[s.producer.i]
  }

  /** What was accepted is what the finished calls stored plus what the running one has stored. */
  ghost predicate StoredOk(s: State) {
    && s.accepted == Taken(s.stored) + TakenNow(s.producer)
    && forall w :: w in s.stored ==> w.count <= |w.data|
  }

  /** What was delivered is what the finished calls handed over plus what the running one has copied. */
  ghost predicate HandedOk(s: State) {
    s.delivered == Concat(s.handed) + GotNow(s.consumer)
  }

  /** A copied sample still sits in the slot at `tail`. */
  ghost predicate HeldOk(s: State)
    requires InRange(s)
  {
    s.consumer.SlotRead? ==>
      s.head != s.tail && s.delivered != [] && s.delivered[|s.delivered| - 1] == s.slots[s.tail]
  }

  /** The samples whose slots the consumer has given back. */
  function Released(s: State): seq<Sample> {
    if s.consumer.SlotRead? && s.delivered != [] then s.delivered[..|s.delivered| - 1] else s.delivered
  }

  /** The sample that is stored but not yet published. */
  function Unpublished(s: State): seq<Sample>
    requires s.head < |s.slots|
  {
    if s.producer.SlotWritten? then [s.slots[s.head]] else []
  }

  /** The slots between the indices hold exactly what is accepted and not yet given back. */
  ghost predicate SeamOk(s: State)
    requires InRange(s)
  {
    s.accepted == Released(s) + (Live(s.slots, s.head, s.tail) + Unpublished(s))
  }

  /** The indices and the two counts agree with the ring. */
  ghost predicate Wf(s: State) {
    InRange(s) && ProducerOk(s) && ConsumerOk(s)
  }

  ghost predicate Inv(s: State) {
    Wf(s) && UnpublishedOk(s) && StoredOk(s) && HandedOk(s) && HeldOk(s) && SeamOk(s)
  }

  lemma StoreKeepsInv(s: State)
    requires Inv(s) && s.producer.AtSlot? && s.producer.i < s.producer.count
    ensures Inv(ProducerStep(s, []))
  {
    var AtSlot(d, count, i) := s.producer;
    var s' := ProducerStep(s, []);
    WriteIsPrivate(s.slots, s.head, s.tail, d[i]);
    StoreKeepsStored(s, d, count, i);
    StoreSeam(s.accepted, Released(s), Live(s.slots, s.head, s.tail), d[i]);
    assert SeamOk(s');
  }

  lemma StoreKeepsStored(s: State, d: seq<Sample>, count: nat, i: nat)
    requires Wf(s) && StoredOk(s) && s.producer == AtSlot(d, count, i) && i < count
    ensures StoredOk(ProducerStep(s, []))
  {
    assert d[..i + 1] == d[..i] + [d[i]];
    Regroup3(Taken(s.stored), d[..i], [d[i]]);
  }

  lemma StoreSeam<T>(accepted: seq<T>, released: seq<T>, live: seq<T>, x: T)
    requires accepted == released + (live + [])
    ensures accepted + [x] == released + (live + [x])
  {
  }

  lemma PublishKeepsInv(s: State)
    requires Inv(s) && s.producer.SlotWritten?
    ensures Inv(ProducerStep(s, []))
  {
    var s' := ProducerStep(s, []);
    HeadMove(s.slots, s.head, s.tail);
    PublishSeam(s.accepted, Released(s), Live(s.slots, s.head, s.tail), s.slots[s.head]);
    assert SeamOk(s');
  }

  lemma PublishSeam<T>(accepted: seq<T>, released: seq<T>, live: seq<T>, x: T)
    requires accepted == released + (live + [x])
    ensures accepted == released + ((live + [x]) + [])
  {
  }

  lemma ReturnKeepsInv(s: State)
    requires Inv(s) && s.producer.AtSlot? && s.producer.i == s.producer.count
    ensures Inv(ProducerStep(s, []))
  {
    ReturnKeepsStored(s);
  }

  lemma ReturnKeepsStored(s: State)
    requires Wf(s) && StoredOk(s) && s.producer.AtSlot? && s.producer.i == s.producer.count
    ensures StoredOk(ProducerStep(s, []))
  {
    TakenGrows(s.stored, Write(s.producer.data, s.producer.count));
    var taken := Taken(s.stored) + TakenNow(s.producer);
    assert taken + [] == taken;
  }

  lemma TakenGrows(stored: seq<Write>, w: Write)
    ensures Taken(stored + [w]) == Taken(stored) + w.data[..Min(w.count, |w.data|)]
  {
    assert (stored + [w])[..|stored|] == stored;
  }

  lemma ProducerKeepsInv(s: State, data: seq<Sample>)
    requires Inv(s)
    ensures Inv(ProducerStep(s, data))
  {
    match s.producer
    case AtSlot(_, count, i) =>
      if i < count {
        StoreKeepsInv(s);
      } else {
        ReturnKeepsInv(s);
      }
    case SlotWritten(_, _, _) =>
      PublishKeepsInv(s);
    case _ =>
      LookKeepsInv(s, data);
  }

  lemma LookKeepsInv(s: State, data: seq<Sample>)
    requires Inv(s) && (s.producer.WriteIdle? || s.producer.SawOwnHead?)
    ensures Inv(ProducerStep(s, data))
  {
    var s' := ProducerStep(s, data);
    LookKeepsWf(s, data);
    LookTakesNothing(s, data);
    assert HeldOk(s') && SeamOk(s');
  }

  lemma LookKeepsWf(s: State, data: seq<Sample>)
    requires Wf(s) && (s.producer.WriteIdle? || s.producer.SawOwnHead?)
    ensures Wf(ProducerStep(s, data))
  {
  }

  lemma LookTakesNothing(s: State, data: seq<Sample>)
    requires Wf(s) && (s.producer.WriteIdle? || s.producer.SawOwnHead?)
    ensures TakenNow(ProducerStep(s, data).producer) == TakenNow(s.producer)
  {
  }

  lemma CopyKeepsInv(s: State)
    requires Inv(s) && s.consumer.BeforeSlot? && |s.consumer.got| < s.consumer.count
    ensures Inv(ConsumerStep(s, 0))
  {
    var s' := ConsumerStep(s, 0);
    assert Released(s') == s.delivered;
  }

  lemma Regroup3<T>(a: seq<T>, b: seq<T>, c: seq<T>)
    ensures (a + b) + c == a + (b + c)
  {
  }

  lemma ReleaseSeam<T>(accepted: seq<T>, delivered: seq<T>, live: seq<T>, unpublished: seq<T>)
    requires delivered != [] && live != [] && delivered[|delivered| - 1] == live[0]
    requires accepted == delivered[..|delivered| - 1] + (live + unpublished)
    ensures accepted == delivered + (live[1..] + unpublished)
  {
    assert delivered == delivered[..|delivered| - 1] + [live[0]];
    assert live == [live[0]] + live[1..];
  }

  lemma ReleaseKeepsInv(s: State)
    requires Inv(s) && s.consumer.SlotRead?
    ensures Inv(ConsumerStep(s, 0))
  {
    var s' := ConsumerStep(s, 0);
    TailMove(s.slots, s.head, s.tail);
    ReleaseSeam(s.accepted, s.delivered, Live(s.slots, s.head, s.tail), Unpublished(s));
    assert SeamOk(s');
  }

  lemma ReturnKeepsHanded(s: State)
    requires Inv(s) && s.consumer.BeforeSlot? && |s.consumer.got| == s.consumer.count
    ensures Inv(ConsumerStep(s, 0))
  {
    var s' := ConsumerStep(s, 0);
    assert HandedOk(s') by {
      assert s'.handed[..|s'.handed| - 1] == s.handed;
    }
  }

  lemma ConsumerKeepsInv(s: State, want: nat)
    requires Inv(s)
    ensures Inv(ConsumerStep(s, want))
  {
    match s.consumer
    case BeforeSlot(count, got) =>
      if |got| < count {
        CopyKeepsInv(s);
      } else {
        ReturnKeepsHanded(s);
      }
    case SlotRead(_, _) =>
      ReleaseKeepsInv(s);
    case _ =>
  }

  // ---------- runs ----------

  function Step(s: State, a: Action): (s': State)
    requires Wf(s)
    ensures Wf(s') && |s'.slots| == |s.slots|
  {
    match a
    case Produce(data) => ProducerStep(s, data)
    case Consume(want) => ConsumerStep(s, want)
  }

  /** Let the scheduler pick the sides in the given order. */
  function Run(s: State, schedule: seq<Action>): (s': State)
    requires Wf(s)
    ensures Wf(s') && |s'.slots| == |s.slots|
    decreases |schedule|
  {
    if schedule == [] then s else Run(Step(s, schedule[0]), schedule[1..])
  }

  lemma {:induction false} RunKeepsInv(s: State, schedule: seq<Action>)
    requires Inv(s)
    ensures Inv(Run(s, schedule))
    decreases |schedule|
  {
    if schedule != [] {
      match schedule[0] {
        case Produce(data) => ProducerKeepsInv(s, data);
        case Consume(want) => ConsumerKeepsInv(s, want);
      }
      RunKeepsInv(Step(s, schedule[0]), schedule[1..]);
    }
  }

  lemma StartedOk(slots: seq<Sample>)
    requires slots != []
    ensures Inv(Started(slots))
  {
  }

  lemma InvGivesPrefix(s: State)
    requires Inv(s)
    ensures s.delivered <= s.accepted && |s.accepted| - |s.delivered| < |s.slots|
  {
    var rest := Live(s.slots, s.head, s.tail) + Unpublished(s);
    assert |rest| < |s.slots|;
    if s.consumer.SlotRead? {
      TailMove(s.slots, s.head, s.tail);
      assert rest == [s.slots[s.tail]] + rest[1..];
      Regroup3(Released(s), [s.slots[s.tail]], rest[1..]);
    }
  }

  /** Under every schedule, what was read is a prefix of what was accepted: nothing is lost,
      duplicated, reordered or read before it was written, and no more than n samples of a ring
      of n + 1 slots are outstanding. */
  lemma PrefixUnderEverySchedule(slots: seq<Sample>, schedule: seq<Action>)
    requires slots != []
    ensures Wf(Started(slots))
    ensures var s := Run(Started(slots), schedule);
            s.delivered <= s.accepted && |s.accepted| - |s.delivered| < |slots|
  {
    StartedOk(slots);
    RunKeepsInv(Started(slots), schedule);
    InvGivesPrefix(Run(Started(slots), schedule));
  }

  /** Seen from the callers: the arrays that finished reads returned, one after the other, are a
      prefix of what the writes took, each write having taken a prefix of its data. */
  lemma CallersSeeAFifo(slots: seq<Sample>, schedule: seq<Action>)
    requires slots != []
    ensures Wf(Started(slots))
    ensures var s := Run(Started(slots), schedule);
            && Concat(s.handed) <= Taken(s.stored) + TakenNow(s.producer)
            && (forall w :: w in s.stored ==> w.count <= |w.data|)
  {
    PrefixUnderEverySchedule(slots, schedule);
    RunKeepsInv(Started(slots), schedule);
    var s := Run(Started(slots), schedule);
    assert Concat(s.handed) <= s.delivered <= s.accepted;
  }

  /** The two sides never work on the same slot: while the producer is storing into a slot or has an
      unpublished sample in it, a consumer that is copying a slot is copying another one. */
  lemma SidesNeverShareASlot(slots: seq<Sample>, schedule: seq<Action>)
    requires slots != []
    ensures Wf(Started(slots))
    ensures var s := Run(Started(slots), schedule);
            && ((s.producer.AtSlot? && s.producer.i < s.producer.count) || s.producer.SlotWritten?)
            && ((s.consumer.BeforeSlot? && |s.consumer.got| < s.consumer.count) || s.consumer.SlotRead?)
            ==> s.head != s.tail
  {
    StartedOk(slots);
  }

  // ---------- a call that is not interrupted ----------

  function Repeat(a: Action, n: nat): (as': seq<Action>)
    ensures |as'| == n
  {
    if n == 0 then [] else [a] + Repeat(a, n - 1)
  }

  lemma RunTwo(s: State, a: Action, n: nat)
    requires Wf(s)
    ensures Run(s, Repeat(a, n + 2)) == Run(Step(Step(s, a), a), Repeat(a, n))
  {
    assert Repeat(a, n + 2)[1..] == Repeat(a, n + 1);
    assert Repeat(a, n + 1)[1..] == Repeat(a, n);
  }

  lemma RunOne(s: State, a: Action)
    requires Wf(s)
    ensures Run(s, Repeat(a, 1)) == Step(s, a)
  {
    assert Repeat(a, 1)[1..] == Repeat(a, 0) == [];
    assert Run(Step(s, a), []) == Step(s, a);
  }

  ghost predicate ConsumerUntouched(s: State, s': State) {
    s'.consumer == s.consumer && s'.tail == s.tail && s'.handed == s.handed && s'.delivered == s.delivered
  }

  ghost predicate ProducerUntouched(s: State, s': State) {
    && s'.producer == s.producer && s'.head == s.head && s'.slots == s.slots
    && s'.stored == s.stored && s'.accepted == s.accepted
  }

  /** What a running `_ringWrite` still has to store. */
  function ToStore(p: Producer): seq<Sample> {
    if p.AtSlot? && p.i <= p.count <= |p.data| then p.data[p.i..p.count] else []
  }

  /** Two steps of the writer: the next sample is stored and published. */
  function WriteOnce(s: State): (s': State)
    requires Wf(s) && s.producer.AtSlot? && s.producer.i < s.producer.count
    ensures Wf(s') && ConsumerUntouched(s, s') && s'.stored == s.stored
    ensures s'.producer == AtSlot(s.producer.data, s.producer.count, s.producer.i + 1)
  {
    var AtSlot(data, count, i) := s.producer;
    s.(slots := s.slots[s.head := data[i]], head := Advance(|s.slots|, s.head), accepted := s.accepted + [data[i]],
       producer := AtSlot(data, count, i + 1))
  }

  /** All the rest of a write. */
  function WriteAll(s: State): (s': State)
    requires Wf(s) && s.producer.AtSlot?
    ensures InRange(s')
    decreases s.producer.count - s.producer.i
  {
    if s.producer.i < s.producer.count then WriteAll(WriteOnce(s))
    else s.(producer := WriteIdle, stored := s.stored + [Write(s.producer.data, s.producer.count)])
  }

  lemma TwoWriteSteps(s: State, a: Action)
    requires Wf(s) && a.Produce? && s.producer.AtSlot? && s.producer.i < s.producer.count
    ensures Step(Step(s, a), a) == WriteOnce(s)
  {
  }

  lemma {:induction false} RunWritesAll(s: State, a: Action, left: nat, n: nat)
    requires Wf(s) && a.Produce? && s.producer.AtSlot? && left == s.producer.count - s.producer.i
    requires n == 2 * left + 1
    ensures Run(s, Repeat(a, n)) == WriteAll(s)
    decreases left
  {
    if s.producer.i < s.producer.count {
      RunWritesAll(WriteOnce(s), a, left - 1, n - 2);
      RunTwoWrites(s, a, n - 2);
    } else {
      RunLastWrite(s, a);
    }
  }

  lemma RunTwoWrites(s: State, a: Action, n: nat)
    requires Wf(s) && a.Produce? && s.producer.AtSlot? && s.producer.i < s.producer.count
    requires Run(WriteOnce(s), Repeat(a, n)) == WriteAll(WriteOnce(s))
    ensures Run(s, Repeat(a, n + 2)) == WriteAll(s)
  {
    RunTwo(s, a, n);
    TwoWriteSteps(s, a);
  }

  lemma RunLastWrite(s: State, a: Action)
    requires Wf(s) && a.Produce? && s.producer.AtSlot? && s.producer.i == s.producer.count
    ensures Run(s, Repeat(a, 1)) == WriteAll(s)
  {
    RunOne(s, a);
  }

  lemma StoreAndPublish(slots: seq<Sample>, head: nat, tail: nat, x: Sample, rest: seq<Sample>)
    requires head < |slots| && tail < |slots| && Distance(|slots|, head, tail) < |slots| - 1
    ensures Live(slots[head := x], Advance(|slots|, head), tail) + rest == Live(slots, head, tail) + ([x] + rest)
  {
    WriteIsPrivate(slots, head, tail, x);
    HeadMove(slots[head := x], head, tail);
    Regroup3(Live(slots, head, tail), [x], rest);
  }

  lemma FirstToStore<T>(data: seq<T>, i: nat, count: nat)
    requires i < count <= |data|
    ensures data[i..count] == [data[i]] + data[i + 1..count]
  {
  }

  lemma WriteOnceMoves(s: State)
    requires Wf(s) && s.producer.AtSlot? && s.producer.i < s.producer.count
    ensures var s' := WriteOnce(s);
            Live(s'.slots, s'.head, s'.tail) + ToStore(s'.producer) == Live(s.slots, s.head, s.tail) + ToStore(s.producer)
  {
    var AtSlot(data, count, i) := s.producer;
    StoreAndPublish(s.slots, s.head, s.tail, data[i], data[i + 1..count]);
    FirstToStore(data, i, count);
  }

  /** The call reports the number it decided on, and adds what it has to store to the ring. */
  lemma {:induction false} WriteAllMoves(s: State, whole: seq<Sample>)
    requires Wf(s) && s.producer.AtSlot? && whole == Live(s.slots, s.head, s.tail) + ToStore(s.producer)
    ensures var s' := WriteAll(s);
            && s'.producer == WriteIdle && ConsumerUntouched(s, s')
            && s'.stored == s.stored + [Write(s.producer.data, s.producer.count)]
            && Live(s'.slots, s'.head, s'.tail) == whole
    decreases s.producer.count - s.producer.i
  {
    if s.producer.i < s.producer.count {
      WriteOnceMoves(s);
      WriteAllMoves(WriteOnce(s), whole);
    } else {
      assert ToStore(s.producer) == [];
      assert Live(s.slots, s.head, s.tail) + [] == Live(s.slots, s.head, s.tail);
    }
  }

  /** A `_ringWrite` that runs without interruption does to the ring what the one-step view of it
      promises: the longest prefix that fits is appended, and its length is returned. */
  lemma SoloWrite(s: State, data: seq<Sample>)
    requires Wf(s) && s.producer.WriteIdle?
    ensures var size := |s.slots| - 1;
            var live := Live(s.slots, s.head, s.tail);
            var n := Min(|data|, size - |live|);
            var s' := Run(s, Repeat(Produce(data), 2 * n + 3));
            && s'.producer == WriteIdle && ConsumerUntouched(s, s')
            && s'.stored == s.stored + [Write(data, n)]
            && Live(s'.slots, s'.head, s'.tail) == Offer(size, live, data)
  {
    var a := Produce(data);
    var n := Min(|data|, |s.slots| - 1 - Distance(|s.slots|, s.head, s.tail));
    WriteBegins(s, data, n);
    SoloWriteRest(s.(producer := AtSlot(data, n, 0)), a, n);
  }

  lemma SoloWriteRest(s: State, a: Action, n: nat)
    requires Wf(s) && a.Produce? && s.producer.AtSlot? && s.producer.i == 0 && n == s.producer.count
    ensures var s' := Run(s, Repeat(a, 2 * n + 1));
            && s'.producer == WriteIdle && ConsumerUntouched(s, s')
            && s'.stored == s.stored + [Write(s.producer.data, n)]
            && Live(s'.slots, s'.head, s'.tail) == Live(s.slots, s.head, s.tail) + ToStore(s.producer)
  {
    RunWritesAll(s, a, n, 2 * n + 1);
    WriteAllMoves(s, Live(s.slots, s.head, s.tail) + ToStore(s.producer));
  }

  lemma WriteBegins(s: State, data: seq<Sample>, n: nat)
    requires Wf(s) && s.producer.WriteIdle? && n == Min(|data|, |s.slots| - 1 - Distance(|s.slots|, s.head, s.tail))
    ensures var a, begun := Produce(data), s.(producer := AtSlot(data, n, 0));
            && Wf(begun) && Run(s, Repeat(a, 2 * n + 3)) == Run(begun, Repeat(a, 2 * n + 1))
            && ToStore(begun.producer) == data[..n]
  {
    RunTwo(s, Produce(data), 2 * n + 1);
    TwoStepsBeginWrite(s, data, n);
  }

  lemma TwoStepsBeginWrite(s: State, data: seq<Sample>, n: nat)
    requires Wf(s) && s.producer.WriteIdle? && n == Min(|data|, |s.slots| - 1 - Distance(|s.slots|, s.head, s.tail))
    ensures var begun := s.(producer := AtSlot(data, n, 0));
            Step(Step(s, Produce(data)), Produce(data)) == begun && Wf(begun)
  {
  }

  /** Two steps of the reader: the sample at the tail is copied and its slot given back. */
  function ReadOnce(s: State): (s': State)
    requires Wf(s) && s.consumer.BeforeSlot? && |s.consumer.got| < s.consumer.count
    ensures Wf(s') && ProducerUntouched(s, s') && s'.handed == s.handed
    ensures s'.consumer.BeforeSlot? && s'.consumer.count == s.consumer.count
    ensures |s'.consumer.got| == |s.consumer.got| + 1
  {
    var x := s.slots[s.tail];
    s.(tail := Advance(|s.slots|, s.tail), delivered := s.delivered + [x],
       consumer := BeforeSlot(s.consumer.count, s.consumer.got + [x]))
  }

  /** All the rest of a read. */
  function ReadAll(s: State): (s': State)
    requires Wf(s) && s.consumer.BeforeSlot?
    ensures InRange(s')
    decreases s.consumer.count - |s.consumer.got|
  {
    if |s.consumer.got| < s.consumer.count then ReadAll(ReadOnce(s))
    else s.(consumer := ReadIdle, handed := s.handed + [s.consumer.got])
  }

  lemma TwoReadSteps(s: State, a: Action)
    requires Wf(s) && a.Consume? && s.consumer.BeforeSlot? && |s.consumer.got| < s.consumer.count
    ensures Step(Step(s, a), a) == ReadOnce(s)
  {
  }

  lemma {:induction false} RunReadsAll(s: State, a: Action, left: nat, n: nat)
    requires Wf(s) && a.Consume? && s.consumer.BeforeSlot? && left == s.consumer.count - |s.consumer.got|
    requires n == 2 * left + 1
    ensures Run(s, Repeat(a, n)) == ReadAll(s)
    decreases left
  {
    if |s.consumer.got| < s.consumer.count {
      RunReadsAll(ReadOnce(s), a, left - 1, n - 2);
      RunTwoReads(s, a, n - 2);
    } else {
      RunLastRead(s, a);
    }
  }

  lemma RunTwoReads(s: State, a: Action, n: nat)
    requires Wf(s) && a.Consume? && s.consumer.BeforeSlot? && |s.consumer.got| < s.consumer.count
    requires Run(ReadOnce(s), Repeat(a, n)) == ReadAll(ReadOnce(s))
    ensures Run(s, Repeat(a, n + 2)) == ReadAll(s)
  {
    RunTwo(s, a, n);
    TwoReadSteps(s, a);
  }

  lemma RunLastRead(s: State, a: Action)
    requires Wf(s) && a.Consume? && s.consumer.BeforeSlot? && |s.consumer.got| == s.consumer.count
    ensures Run(s, Repeat(a, 1)) == ReadAll(s)
  {
    RunOne(s, a);
  }

  lemma ReadOnceMoves(s: State)
    requires Wf(s) && s.consumer.BeforeSlot? && |s.consumer.got| < s.consumer.count
    ensures var s' := ReadOnce(s);
            s'.consumer.got + Live(s'.slots, s'.head, s'.tail) == s.consumer.got + Live(s.slots, s.head, s.tail)
  {
    TailMove(s.slots, s.head, s.tail);
    var live := Live(s.slots, s.head, s.tail);
    assert live == [live[0]] + live[1..];
    Regroup3(s.consumer.got, [live[0]], live[1..]);
  }

  /** The call hands over as many samples as it decided to, and moves them from the ring, `whole` being what it has
      got and what is live. */
  lemma {:induction false} ReadAllMoves(s: State, whole: seq<Sample>) returns (data: seq<Sample>)
    requires Wf(s) && s.consumer.BeforeSlot? && whole == s.consumer.got + Live(s.slots, s.head, s.tail)
    ensures var s' := ReadAll(s);
            && s'.consumer == ReadIdle && ProducerUntouched(s, s')
            && s'.handed == s.handed + [data] && |data| == s.consumer.count
            && data + Live(s'.slots, s'.head, s'.tail) == whole
    decreases s.consumer.count - |s.consumer.got|
  {
    if |s.consumer.got| < s.consumer.count {
      ReadOnceMoves(s);
      data := ReadAllMoves(ReadOnce(s), whole);
    } else {
      data := s.consumer.got;
    }
  }

  /** A `_ringRead` that runs without interruption hands over the oldest samples and removes exactly them. */
  lemma SoloRead(s: State, want: nat)
    requires Wf(s) && s.consumer.ReadIdle?
    ensures var live := Live(s.slots, s.head, s.tail);
            var n := Min(want, |live|);
            var s' := Run(s, Repeat(Consume(want), 2 * n + 3));
            && s'.consumer == ReadIdle && ProducerUntouched(s, s')
            && s'.handed == s.handed + [live[..n]]
            && Live(s'.slots, s'.head, s'.tail) == live[n..]
  {
    var a := Consume(want);
    var live := Live(s.slots, s.head, s.tail);
    var n := Min(want, |live|);
    ReadBegins(s, want);
    SoloReadRest(s.(consumer := BeforeSlot(n, [])), a, n);
  }

  lemma SoloReadRest(s: State, a: Action, n: nat)
    requires Wf(s) && a.Consume? && s.consumer == BeforeSlot(n, []) && n <= |Live(s.slots, s.head, s.tail)|
    ensures var live := Live(s.slots, s.head, s.tail);
            var s' := Run(s, Repeat(a, 2 * n + 1));
            && s'.consumer == ReadIdle && ProducerUntouched(s, s')
            && s'.handed == s.handed + [live[..n]]
            && Live(s'.slots, s'.head, s'.tail) == live[n..]
  {
    var live := Live(s.slots, s.head, s.tail);
    RunReadsAll(s, a, n, 2 * n + 1);
    var data := ReadAllMoves(s, [] + live);
    var s' := ReadAll(s);
    SplitHere(data, Live(s'.slots, s'.head, s'.tail), live);
  }

  lemma ReadBegins(s: State, want: nat)
    requires Wf(s) && s.consumer.ReadIdle?
    ensures var a, n := Consume(want), Min(want, |Live(s.slots, s.head, s.tail)|);
            var begun := s.(consumer := BeforeSlot(n, []));
            Wf(begun) && Run(s, Repeat(a, 2 * n + 3)) == Run(begun, Repeat(a, 2 * n + 1))
  {
    RunTwo(s, Consume(want), 2 * Min(want, |Live(s.slots, s.head, s.tail)|) + 1);
  }

  lemma SplitHere<T>(data: seq<T>, rest: seq<T>, whole: seq<T>)
    requires data + rest == [] + whole
    ensures data == whole[..|data|] && rest == whole[|data|..]
  {
    assert [] + whole == whole;
  }

  // ---------- out-of-date indices only cost room, never more ----------

  /** While the producer stands still, the consumer can only make room. */
  lemma {:induction false} RoomOnlyGrows(s: State, schedule: seq<Action>)
    requires Wf(s) && forall k :: 0 <= k < |schedule| ==> schedule[k].Consume?
    ensures var s' := Run(s, schedule);
            && s'.producer == s.producer && s'.head == s.head
            && Distance(|s.slots|, s'.head, s'.tail) <= Distance(|s.slots|, s.head, s.tail)
    decreases |schedule|
  {
    if schedule != [] {
      var next := Step(s, schedule[0]);
      if s.consumer.SlotRead? {
        TailMove(s.slots, s.head, s.tail);
      }
      RoomOnlyGrows(next, schedule[1..]);
    }
  }

  /** However the consumer runs between the two index reads of `_ringWrite`, the call decides to
      store at least as much as would have fitted when it began, and at most what fits now. */
  lemma WriteUsesTheRoomItFound(s: State, data: seq<Sample>, schedule: seq<Action>)
    requires Wf(s) && s.producer.WriteIdle?
    requires forall k :: 0 <= k < |schedule| ==> schedule[k].Consume?
    ensures var size := |s.slots| - 1;
            var mid := Run(Step(s, Produce(data)), schedule);
            var s' := Step(mid, Produce([]));
            && s'.producer.AtSlot? && s'.producer.data == data && s'.producer.i == 0
            && Min(|data|, size - |Live(s.slots, s.head, s.tail)|) <= s'.producer.count
            && s'.producer.count == Min(|data|, size - |Live(mid.slots, mid.head, mid.tail)|)
  {
    RoomOnlyGrows(Step(s, Produce(data)), schedule);
  }

  /** While the consumer stands still, the producer can only add samples. */
  lemma {:induction false} FillOnlyGrows(s: State, schedule: seq<Action>)
    requires Wf(s) && forall k :: 0 <= k < |schedule| ==> schedule[k].Produce?
    ensures var s' := Run(s, schedule);
            && s'.consumer == s.consumer && s'.tail == s.tail
            && Distance(|s.slots|, s.head, s.tail) <= Distance(|s.slots|, s'.head, s'.tail)
    decreases |schedule|
  {
    if schedule != [] {
      var next := Step(s, schedule[0]);
      if s.producer.SlotWritten? {
        HeadMove(s.slots, s.head, s.tail);
      }
      FillOnlyGrows(next, schedule[1..]);
    }
  }

  /** However the producer runs between the two index reads of `_ringRead`, the call decides to hand over exactly
      what was waiting when it began, or as much of it as was asked for, and that is still there. */
  lemma ReadGetsWhatItFound(s: State, want: nat, schedule: seq<Action>)
    requires Wf(s) && s.consumer.ReadIdle?
    requires forall k :: 0 <= k < |schedule| ==> schedule[k].Produce?
    ensures var mid := Run(Step(s, Consume(want)), schedule);
            var s' := Step(mid, Consume(0));
            && s'.consumer == BeforeSlot(Min(want, |Live(s.slots, s.head, s.tail)|), [])
            && s'.consumer.count <= |Live(mid.slots, mid.head, mid.tail)|
  {
    FillOnlyGrows(Step(s, Consume(want)), schedule);
  }
}
