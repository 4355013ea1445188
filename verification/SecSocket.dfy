/**
 The socket object and the reference count that decides when the network stack goes down.

 `SocketCount` is the count as a state machine over the calls that touch it; `SecSocket` is
 the class, every method of which makes one move of that machine.  The socket library
 (`cy_socket_*`) is foreign: its answers are parameters, and `Possible` is its contract.
 */
module SocketCount {
  import opened Common

  type Handle = nat

  /** `cy_rslt_t`; 0 is CY_RSLT_SUCCESS. */
  type Result = nat
  const SUCCESS: Result := 0

  /** What the stack is asked: to come up (`cy_socket_init`) or to shut down (`cy_socket_deinit`), with its answer. */
  datatype Ask = AskInit(ret: Result) | AskDeinit(ret: Result)

  /** The stack is up: the last request it granted was one to come up. */
  predicate Up(asked: seq<Ask>) {
    asked != [] &&
    match asked[|asked| - 1]
    case AskInit(ret) => ret == SUCCESS || Up(asked[..|asked| - 1])
    case AskDeinit(ret) => ret != SUCCESS && Up(asked[..|asked| - 1])
  }

  /** The statics of the class, and what the stack and the history know: the handles that exist, how many
      `begin` calls raised the count without leaving a socket behind, and what the stack was asked. */
  datatype Net = Net(initialized: bool, count: nat, live: set<Handle>, stranded: nat, asked: seq<Ask>)

  const FRESH: Net := Net(false, 0, {}, 0, [])

  /** `initRet`, `createRet` and so on are the answers of the stack, if it is asked. */
  datatype Call =
    | Begin(known: bool, initRet: Result, createRet: Result, handle: Handle)
    | Accept(listener: Handle, acceptRet: Result, handle: Handle)
    | End(handle: Handle, disconnectRet: Result, deleteRet: Result, deinitRet: Result)

  /** The contract of the stack: new handles are new, and only existing ones can be accepted on,
      disconnected or deleted. */
  ghost predicate Possible(net: Net, c: Call) {
    match c
    case Begin(_, _, createRet, handle) => createRet == SUCCESS ==> handle !in net.live
    case Accept(listener, acceptRet, handle) =>
      acceptRet == SUCCESS ==> listener in net.live && handle !in net.live
    case End(handle, disconnectRet, deleteRet, _) =>
      disconnectRet == SUCCESS || deleteRet == SUCCESS ==> handle in net.live
  }

  /** `global_sockets_init`. */
  function Init(net: Net, initRet: Result): (r: (Net, Result)) {
    var asked := if net.initialized then net.asked else net.asked + [AskInit(initRet)];
    if !net.initialized && initRet != SUCCESS then (net.(asked := asked), initRet)
    else (net.(initialized := true, count := (net.count + 1) % TWO32, asked := asked), SUCCESS)
  }

  /** `global_sockets_deinit`. */
  function Deinit(net: Net, deinitRet: Result): (r: (Net, Result)) {
    var count := (net.count - 1) % TWO32;
    var asked := net.asked + [AskDeinit(deinitRet)];
    if count != 0 then (net.(count := count), SUCCESS)
    else if deinitRet != SUCCESS then (net.(count := count, asked := asked), deinitRet)
    else (net.(count := count, initialized := false, asked := asked), SUCCESS)
  }

  /** What a call does. */
  function Next(net: Net, c: Call): Net {
    match c
    case Begin(known, initRet, createRet, handle) =>
      var (up, ret) := Init(net, initRet);
      if ret != SUCCESS then up
      else if !known || createRet != SUCCESS then up.(stranded := up.stranded + 1)
      else up.(live := up.live + {handle})
    case Accept(_, acceptRet, handle) =>
      if acceptRet != SUCCESS then net
      else net.(count := (net.count + 1) % TWO32, live := net.live + {handle})
    case End(handle, disconnectRet, deleteRet, deinitRet) =>
      if disconnectRet != SUCCESS || deleteRet != SUCCESS then net
      else Deinit(net.(live := net.live - {handle}), deinitRet).0
  }

  /** Whether a call asks the stack to shut down. */
  predicate CallsDeinit(net: Net, c: Call) {
    Deletes(c) && (net.count - 1) % TWO32 == 0
  }

  function Run(net: Net, cs: seq<Call>): Net {
    if cs == [] then net else Next(Run(net, cs[..|cs| - 1]), cs[|cs| - 1])
  }

  ghost predicate Legal(net: Net, cs: seq<Call>) {
    forall k :: 0 <= k < |cs| ==> Possible(Run(net, cs[..k]), cs[k])
  }

  /** What holds the stack up: the live sockets, and the `begin` calls that failed after raising the count. */
  function Holders(net: Net): nat {
    |net.live| + net.stranded
  }

  /** The 32-bit count is the number of holders, as far as it can tell. */
  ghost predicate CountOk(net: Net) {
    net.count == Holders(net) % TWO32
  }

  /** The flag tells whether the stack is up. */
  ghost predicate FlagOk(net: Net) {
    net.initialized <==> Up(net.asked)
  }

  /** The flag tells whether the stack is up, and the count is the number of holders, none while it is down. */
  ghost predicate Inv(net: Net) {
    && FlagOk(net)
    && net.count == Holders(net) < TWO32
    && (!net.initialized ==> net.count == 0)
  }

  /** The call deletes a socket. */
  predicate Deletes(c: Call) {
    c.End? && c.disconnectRet == SUCCESS && c.deleteRet == SUCCESS
  }

  lemma UpAfter(asked: seq<Ask>, ask: Ask)
    ensures Up(asked + [ask]) <==> if ask.ret != SUCCESS then Up(asked) else ask.AskInit?
  {
    assert (asked + [ask])[..|asked|] == asked;
  }

  /** What a call asks the stack, if anything. */
  function AskedIn(net: Net, c: Call): (asks: seq<Ask>)
    ensures |asks| <= 1
  {
    if c.Begin? && !Up(net.asked) then [AskInit(c.initRet)]
    else if CallsDeinit(net, c) then [AskDeinit(c.deinitRet)]
    else []
  }

  /** One call keeps the flag right.  The stack is asked to come up exactly in a `begin` while it is down, and to shut
      down exactly when the count falls to zero; it is up after every `begin` that raised the count. */
  lemma NextKeepsFlag(net: Net, c: Call)
    requires FlagOk(net)
    ensures FlagOk(Next(net, c)) && Next(net, c).asked == net.asked + AskedIn(net, c)
    ensures c.Begin? && (Up(net.asked) || c.initRet == SUCCESS) ==> Up(Next(net, c).asked)
    ensures CallsDeinit(net, c) && c.deinitRet == SUCCESS ==> !Up(Next(net, c).asked)
  {
    match c
    case Begin(_, initRet, _, _) =>
      InitKeepsFlag(net, initRet);
    case Accept(_, _, _) =>
      assert net.asked + [] == net.asked;
    case End(handle, _, _, deinitRet) =>
      if Deletes(c) {
        DeinitKeepsFlag(net.(live := net.live - {handle}), deinitRet);
      } else {
        assert net.asked + [] == net.asked;
      }
  }

  lemma InitKeepsFlag(net: Net, initRet: Result)
    requires FlagOk(net)
    ensures var up := Init(net, initRet).0;
            && FlagOk(up) && (Up(net.asked) || initRet == SUCCESS ==> Up(up.asked))
            && up.asked == net.asked + if Up(net.asked) then [] else [AskInit(initRet)]
  {
    UpAfter(net.asked, AskInit(initRet));
    assert net.asked + [] == net.asked;
  }

  lemma DeinitKeepsFlag(net: Net, deinitRet: Result)
    requires FlagOk(net)
    ensures var down, asks := Deinit(net, deinitRet).0, (net.count - 1) % TWO32 == 0;
            && FlagOk(down) && (asks && deinitRet == SUCCESS ==> !Up(down.asked))
            && down.asked == net.asked + if asks then [AskDeinit(deinitRet)] else []
  {
    UpAfter(net.asked, AskDeinit(deinitRet));
    assert net.asked + [] == net.asked;
  }

  /** In every run, of any length, the flag tells whether the stack is up; that is defined by what it was asked and
      answered alone. */
  lemma {:induction false} RunKeepsFlag(net: Net, cs: seq<Call>)
    requires FlagOk(net)
    ensures FlagOk(Run(net, cs))
  {
    if cs != [] {
      RunKeepsFlag(net, cs[..|cs| - 1]);
      NextKeepsFlag(Run(net, cs[..|cs| - 1]), cs[|cs| - 1]);
    }
  }

  /** In every run from the start, of any length: each call asks the stack to come up exactly if it is a `begin` and the
      stack is down; to shut down exactly if it deletes a socket and leaves a multiple of 2^32 holders; and nothing else. */
  lemma AsksIff(cs: seq<Call>, k: nat)
    requires Legal(FRESH, cs) && k < |cs|
    ensures var before, after := Run(FRESH, cs[..k]), Run(FRESH, cs[..k + 1]);
            after.asked == before.asked +
                           if cs[k].Begin? && !Up(before.asked) then [AskInit(cs[k].initRet)]
                           else if Deletes(cs[k]) && Holders(after) % TWO32 == 0 then [AskDeinit(cs[k].deinitRet)]
                           else []
  {
    FreshIsOk();
    RunKeepsFlag(FRESH, cs[..k]);
    TakeNext(FRESH, cs, k);
    NextKeepsFlag(Run(FRESH, cs[..k]), cs[k]);
    ShutsDownIff(FRESH, cs, k);
  }

  lemma WrapUp(n: nat)
    ensures (n % TWO32 + 1) % TWO32 == (n + 1) % TWO32
  {
  }

  lemma WrapDown(n: nat)
    ensures ((n + 1) % TWO32 - 1) % TWO32 == n % TWO32
  {
  }

  /** What a call does to the number of holders. */
  lemma NextHolders(net: Net, c: Call)
    requires Possible(net, c)
    ensures var after := Next(net, c);
            && (Deletes(c) ==> Holders(after) + 1 == Holders(net) && after.count == (net.count - 1) % TWO32)
            && (!Deletes(c) ==> || (after.count == net.count && Holders(after) == Holders(net))
                                || (after.count == (net.count + 1) % TWO32 && Holders(after) == Holders(net) + 1))
            && after.stranded >= net.stranded
  {
    if Deletes(c) {
      assert |net.live| == |net.live - {c.handle}| + 1;
    } else if !c.End? && Next(net, c).live != net.live {
      assert |net.live + {c.handle}| == |net.live| + 1;
    }
  }

  /** One call, however many holders there are: the count follows them modulo 2^32, and the stack is asked to shut
      down exactly when a deletion leaves a multiple of 2^32 of them. */
  lemma NextKeepsCount(net: Net, c: Call)
    requires CountOk(net) && Possible(net, c)
    ensures CountOk(Next(net, c))
    ensures CallsDeinit(net, c) <==> Deletes(c) && Holders(Next(net, c)) % TWO32 == 0
  {
    NextHolders(net, c);
    WrapUp(Holders(net));
    WrapDown(Holders(Next(net, c)));
  }

  /** One call that leaves fewer than 2^32 holders: the count is their number, and the stack is shut down only
      when none is left. */
  lemma NextKeepsInv(net: Net, c: Call)
    requires Inv(net) && Possible(net, c) && Holders(Next(net, c)) < TWO32
    ensures Inv(Next(net, c))
    ensures Deletes(c) ==> net.count >= 1 && Next(net, c).count == net.count - 1
    ensures CallsDeinit(net, c) <==> Deletes(c) && Next(net, c).live == {} && net.stranded == 0
  {
    CountIsHolders(net, c);
    ShutsDownWhenEmpty(net, c);
    NextKeepsUp(net, c);
    NextKeepsFlag(net, c);
  }

  lemma CountIsHolders(net: Net, c: Call)
    requires Inv(net) && Possible(net, c) && Holders(Next(net, c)) < TWO32
    ensures Next(net, c).count == Holders(Next(net, c))
    ensures Deletes(c) ==> Holders(net) == Holders(Next(net, c)) + 1
  {
    NextHolders(net, c);
    Below32(Holders(net));
    NextKeepsCount(net, c);
    Below32(Holders(Next(net, c)));
  }

  lemma ShutsDownWhenEmpty(net: Net, c: Call)
    requires Inv(net) && Possible(net, c) && Holders(Next(net, c)) < TWO32
    ensures CallsDeinit(net, c) <==> Deletes(c) && Next(net, c).live == {} && net.stranded == 0
  {
    NextHolders(net, c);
    Below32(Holders(net));
    NextKeepsCount(net, c);
    Below32(Holders(Next(net, c)));
    if Deletes(c) {
      EmptyIff(Next(net, c));
    }
  }

  lemma EmptyIff(net: Net)
    ensures Holders(net) == 0 <==> net.live == {} && net.stranded == 0
  {
  }

  lemma Below32(n: nat)
    requires n < TWO32
    ensures n % TWO32 == n
  {
  }

  /** As long as the count can tell the holders, the stack is down only without any. */
  lemma NextKeepsUp(net: Net, c: Call)
    requires Inv(net) && Possible(net, c)
    ensures !Next(net, c).initialized ==> Next(net, c).count == 0
  {
    if c.Accept? && c.acceptRet == SUCCESS {
      assert c.listener in net.live && |net.live| > 0;
    }
  }

  lemma FreshIsOk()
    ensures CountOk(FRESH) && FlagOk(FRESH) && Inv(FRESH)
  {
  }

  /** In every run, of any length and with any failures of the stack, the count is the number of holders
      modulo 2^32. */
  lemma {:induction false} RunKeepsCount(net: Net, cs: seq<Call>)
    requires CountOk(net) && Legal(net, cs)
    ensures CountOk(Run(net, cs)) && Run(net, cs).stranded >= net.stranded
  {
    if cs != [] {
      var init := cs[..|cs| - 1];
      LegalPrefix(net, cs);
      RunKeepsCount(net, init);
      NextHolders(Run(net, init), cs[|cs| - 1]);
      NextKeepsCount(Run(net, init), cs[|cs| - 1]);
    }
  }

  /** At no time in the run are there 2^32 holders or more. */
  ghost predicate Bounded(net: Net, cs: seq<Call>) {
    forall k :: 0 <= k <= |cs| ==> Holders(Run(net, cs[..k])) < TWO32
  }

  lemma BoundedTake(net: Net, cs: seq<Call>, n: nat)
    requires n <= |cs| && Bounded(net, cs)
    ensures Bounded(net, cs[..n]) && Holders(Run(net, cs[..n])) < TWO32
  {
    forall k | 0 <= k <= n
      ensures Holders(Run(net, cs[..n][..k])) < TWO32
    {
      assert cs[..n][..k] == cs[..k];
    }
  }

  /** In every run without 2^32 holders at a time, however long, the count equals the live sockets plus the
      `begin` calls that failed after raising it. */
  lemma {:induction false} RunKeepsInv(net: Net, cs: seq<Call>)
    requires Inv(net) && Legal(net, cs) && Bounded(net, cs)
    ensures Inv(Run(net, cs))
  {
    if cs != [] {
      var init := cs[..|cs| - 1];
      LegalPrefix(net, cs);
      BoundedTake(net, cs, |cs| - 1);
      BoundedTake(net, cs, |cs|);
      assert cs[..|cs|] == cs;
      RunKeepsInv(net, init);
      NextKeepsInv(Run(net, init), cs[|cs| - 1]);
    }
  }

  /** The safety claim: at every call of every such run the stack is asked to shut down only when the socket
      just deleted was the last one, and while a socket is live the stack is up. */
  lemma StackOutlivesSockets(cs: seq<Call>, k: nat)
    requires Legal(FRESH, cs) && Bounded(FRESH, cs) && k < |cs|
    ensures var before := Run(FRESH, cs[..k]);
            var after := Next(before, cs[k]);
            && (CallsDeinit(before, cs[k]) ==> after.live == {} && after.count == 0 < before.count)
            && (before.live != {} ==> before.initialized && Up(before.asked))
            && (after.live != {} ==> after.initialized && Up(after.asked))
  {
    LegalTake(FRESH, cs, k);
    BoundedTake(FRESH, cs, k);
    RunKeepsInv(FRESH, cs[..k]);
    TakeNext(FRESH, cs, k);
    BoundedTake(FRESH, cs, k + 1);
    NextKeepsInv(Run(FRESH, cs[..k]), cs[k]);
  }

  lemma TakeNext(net: Net, cs: seq<Call>, k: nat)
    requires k < |cs|
    ensures Run(net, cs[..k + 1]) == Next(Run(net, cs[..k]), cs[k])
  {
    assert cs[..k + 1][..k] == cs[..k];
  }

  /** Without that bound: a call of any run asks the stack to shut down exactly when it deletes a socket and leaves
      a multiple of 2^32 holders.  So no run does it under a live socket unless 2^32 are held. */
  lemma ShutsDownIff(net: Net, cs: seq<Call>, k: nat)
    requires CountOk(net) && Legal(net, cs) && k < |cs|
    ensures var before, after := Run(net, cs[..k]), Run(net, cs[..k + 1]);
            && (CallsDeinit(before, cs[k]) <==> Deletes(cs[k]) && Holders(after) % TWO32 == 0)
            && (CallsDeinit(before, cs[k]) ==> Holders(after) == 0 || Holders(after) >= TWO32)
            && after.stranded >= net.stranded
  {
    LegalTake(net, cs, k);
    RunKeepsCount(net, cs[..k]);
    TakeNext(net, cs, k);
    NextHolders(Run(net, cs[..k]), cs[k]);
    NextKeepsCount(Run(net, cs[..k]), cs[k]);
    if Holders(Run(net, cs[..k + 1])) < TWO32 {
      Below32(Holders(Run(net, cs[..k + 1])));
    }
  }

  /** The converse fails: a `begin` that failed after raising the count is never paid back.  From then on, in any
      run, no call shuts the stack down again until there are 2^32 holders. */
  lemma StrandedForever(net: Net, cs: seq<Call>)
    requires CountOk(net) && net.stranded > 0 && Legal(net, cs)
    ensures forall k :: 0 <= k < |cs| && CallsDeinit(Run(net, cs[..k]), cs[k]) ==>
                          Holders(Run(net, cs[..k + 1])) >= TWO32
    ensures Inv(net) && Bounded(net, cs) ==> Run(net, cs).initialized && Up(Run(net, cs).asked)
  {
    forall k | 0 <= k < |cs| && CallsDeinit(Run(net, cs[..k]), cs[k])
      ensures Holders(Run(net, cs[..k + 1])) >= TWO32
    {
      ShutsDownIff(net, cs, k);
    }
    if Inv(net) && Bounded(net, cs) {
      RunKeepsInv(net, cs);
      RunKeepsCount(net, cs);
    }
  }

  /** A `begin` that fails after raising the count. */
  const STRANDING: Call := Begin(true, SUCCESS, 1, 7)

  /** The smallest such run: one `begin` whose socket cannot be created. */
  lemma OneBeginCanStrand()
    ensures Legal(FRESH, [STRANDING]) && Run(FRESH, [STRANDING]) == Net(true, 1, {}, 1, [AskInit(SUCCESS)])
  {
    assert Run(FRESH, [STRANDING]) == Next(Run(FRESH, []), STRANDING);
  }

  /** Any number of them in a row. */
  function Strandings(n: nat): (cs: seq<Call>)
    ensures |cs| == n && forall c :: c in cs ==> c == STRANDING
  {
    if n == 0 then [] else Strandings(n - 1) + [STRANDING]
  }

  lemma {:induction false} ManyBeginsStrand(n: nat)
    ensures Legal(FRESH, Strandings(n)) && Run(FRESH, Strandings(n)) == Stranded(n)
  {
    if n == 0 {
      NoneStrands();
    } else {
      ManyBeginsStrand(n - 1);
      OneMoreStrands(Strandings(n - 1), n - 1);
    }
  }

  lemma NoneStrands()
    ensures Legal(FRESH, []) && Run(FRESH, []) == FRESH == Stranded(0)
  {
  }

  lemma OneMoreStrands(cs: seq<Call>, n: nat)
    requires Legal(FRESH, cs) && Run(FRESH, cs) == Stranded(n)
    ensures Legal(FRESH, cs + [STRANDING]) && Run(FRESH, cs + [STRANDING]) == Stranded(n + 1)
  {
    StrandingAdds(n);
    RunAppend(FRESH, cs, STRANDING);
  }

  /** The state after `n` of them. */
  function Stranded(n: nat): Net {
    Net(n > 0, n % TWO32, {}, n, if n > 0 then [AskInit(SUCCESS)] else [])
  }

  lemma StrandingAdds(n: nat)
    ensures Next(Stranded(n), STRANDING) == Stranded(n + 1)
  {
    WrapUp(n);
  }

  /** The limit is real: after 2^32 stranded calls the count has come round to zero, and opening and deleting one
      socket shuts the stack down. */
  lemma StrandedLimit(h: Handle)
    ensures var begun := Strandings(TWO32) + [Begin(true, SUCCESS, SUCCESS, h)];
            var end := End(h, SUCCESS, SUCCESS, SUCCESS);
            && Legal(FRESH, begun + [end])
            && CallsDeinit(Run(FRESH, begun), end) && Run(FRESH, begun).stranded == TWO32
  {
    var cs, open, end := Strandings(TWO32), Begin(true, SUCCESS, SUCCESS, h), End(h, SUCCESS, SUCCESS, SUCCESS);
    ManyBeginsStrand(TWO32);
    RunAppend(FRESH, cs, open);
    RunAppend(FRESH, cs + [open], end);
  }

  lemma LegalTake(net: Net, cs: seq<Call>, n: nat)
    requires n <= |cs| && Legal(net, cs)
    ensures Legal(net, cs[..n])
  {
    forall k | 0 <= k < n
      ensures Possible(Run(net, cs[..n][..k]), cs[..n][k])
    {
      assert cs[..n][..k] == cs[..k];
    }
  }

  lemma LegalPrefix(net: Net, cs: seq<Call>)
    requires cs != [] && Legal(net, cs)
    ensures Legal(net, cs[..|cs| - 1]) && Possible(Run(net, cs[..|cs| - 1]), cs[|cs| - 1])
  {
    LegalTake(net, cs, |cs| - 1);
  }

  lemma RunAppend(net: Net, cs: seq<Call>, c: Call)
    requires Legal(net, cs) && Possible(Run(net, cs), c)
    ensures Run(net, cs + [c]) == Next(Run(net, cs), c) && Legal(net, cs + [c])
  {
    assert (cs + [c])[..|cs|] == cs;
    forall k | 0 <= k < |cs + [c]|
      ensures Possible(Run(net, (cs + [c])[..k]), (cs + [c])[k])
    {
      if k < |cs| {
        assert (cs + [c])[..k] == cs[..k];
      }
    }
  }

  /** Sockets that no call of a run deletes stay live; if the run is bounded they keep the count at or above their
      number, and keep the stack up. */
  lemma OthersStayLive(net: Net, cs: seq<Call>, others: set<Handle>)
    requires Inv(net) && Legal(net, cs) && others <= net.live
    requires forall k :: 0 <= k < |cs| && cs[k].End? ==> cs[k].handle !in others
    ensures others <= Run(net, cs).live
    ensures Bounded(net, cs) ==> |others| <= Run(net, cs).count && (others != {} ==> Up(Run(net, cs).asked))
  {
    forall h | h in others
      ensures h in Run(net, cs).live
    {
      LiveUnlessDeleted(net, cs, h);
    }
    SubsetSize(others, Run(net, cs).live);
    if Bounded(net, cs) {
      RunKeepsInv(net, cs);
    }
  }

  /** A run that opens no sockets never has more holders than it began with. */
  lemma {:induction false} EndsAreBounded(net: Net, cs: seq<Call>)
    requires Legal(net, cs) && Holders(net) < TWO32 && forall c :: c in cs ==> c.End?
    ensures Bounded(net, cs) && Holders(Run(net, cs)) <= Holders(net)
  {
    if cs != [] {
      var init := cs[..|cs| - 1];
      LegalPrefix(net, cs);
      EndsAreBounded(net, init);
      var last := cs[|cs| - 1];
      assert last in cs && last.End?;
      NextHolders(Run(net, init), last);
      forall k | 0 <= k <= |cs|
        ensures Holders(Run(net, cs[..k])) < TWO32
      {
        if k < |cs| {
          assert cs[..k] == init[..k];
        } else {
          assert cs[..k] == cs;
        }
      }
    }
  }

  /** A socket stays live while no call deletes it. */
  lemma {:induction false} LiveUnlessDeleted(net: Net, cs: seq<Call>, h: Handle)
    requires h in net.live && forall k :: 0 <= k < |cs| && cs[k].End? ==> cs[k].handle != h
    ensures h in Run(net, cs).live
  {
    if cs != [] {
      LiveUnlessDeleted(net, cs[..|cs| - 1], h);
    }
  }

  lemma SubsetSize<T>(a: set<T>, b: set<T>)
    requires a <= b
    ensures |a| <= |b|
  {
    assert b == a + (b - a);
  }

  /** In any run from the start, deleting the last socket shuts the stack down exactly when the number of `begin` calls
      that failed after raising the count is a multiple of 2^32: in practice, when there were none. */
  lemma LastEndShutsDownIff(cs: seq<Call>, c: Call)
    requires Legal(FRESH, cs) && Possible(Run(FRESH, cs), c)
    requires Deletes(c) && Run(FRESH, cs).live == {c.handle}
    ensures CallsDeinit(Run(FRESH, cs), c) <==> Run(FRESH, cs).stranded % TWO32 == 0
  {
    FreshIsOk();
    RunKeepsCount(FRESH, cs);
    LastDeletion(Run(FRESH, cs), c);
  }

  lemma LastDeletion(net: Net, c: Call)
    requires CountOk(net) && Possible(net, c) && Deletes(c) && net.live == {c.handle}
    ensures CallsDeinit(net, c) <==> net.stranded % TWO32 == 0
  {
    NextKeepsCount(net, c);
    assert net.live - {c.handle} == {};
  }
}

module SecSocket {
  import opened Common
  import opened Fifo
  import opened SocketCount

  datatype Protocol = NotSet | Tcp | Udp

  datatype Status = Uninited | Created | Deleted | Disconnected | Connected | Bound | Listening | Error

  /** `SOCKET_STATUS_UNINITED` used as a result code.  It has the value of CY_RSLT_SUCCESS. */
  const STATUS_UNINITED_CODE: Result := 0

  const RX_BUFFER_SIZE: nat := 4096

  /** The static members of the class, together with the handles that exist in the stack. */
  class SocketGlobals {
    var initialized: bool
    var count: nat
    ghost var live: set<Handle>
    ghost var stranded: nat
    ghost var asked: seq<Ask>

    ghost function View(): Net
      reads this
    {
      Net(initialized, count, live, stranded, asked)
    }

    constructor ()
      ensures View() == FRESH
    {
      initialized, count, live, stranded, asked := false, 0, {}, 0, [];
    }

    method GlobalInit(initRet: Result) returns (ret: Result)
      modifies this
      ensures (View(), ret) == Init(old(View()), initRet)
    {
      if !initialized {
        asked := asked + [AskInit(initRet)];
        if initRet != SUCCESS {
          return initRet;
        }
        initialized := true;
      }
      count := (count + 1) % TWO32;
      return SUCCESS;
    }

    method GlobalDeinit(deinitRet: Result) returns (ret: Result)
      modifies this
      ensures (View(), ret) == Deinit(old(View()), deinitRet)
    {
      count := (count - 1) % TWO32;
      if count == 0 {
        asked := asked + [AskDeinit(deinitRet)];
        if deinitRet != SUCCESS {
          return deinitRet;
        }
        initialized := false;
      }
      return SUCCESS;
    }
  }

  class Socket {
    const globals: SocketGlobals
    const rx: ByteFifo
    var handle: Handle
    var status: Status
    var lastError: Result
    var protocol: Protocol
    var remoteIp: nat
    var port: nat
    /** The bytes the stack has taken from this socket so far. */
    ghost var outgoing: seq<byte>

    ghost predicate Valid()
      reads this, rx
    {
      rx.Valid() && rx.cap == RX_BUFFER_SIZE
    }

    constructor (globals: SocketGlobals)
      ensures Valid() && fresh(rx) && this.globals == globals && rx.q == []
      ensures handle == 0 && status == Uninited && lastError == SUCCESS && protocol == NotSet
      ensures remoteIp == 0 && port == 0 && outgoing == []
    {
      this.globals := globals;
      rx := new ByteFifo(RX_BUFFER_SIZE);
      handle, status, lastError, protocol := 0, Uninited, SUCCESS, NotSet;
      remoteIp, port, outgoing := 0, 0, [];
    }

    /** An unknown protocol is not reported: its error code is the code of success, and the status stays. */
    method Begin(protocol: Protocol, initRet: Result, createRet: Result, newHandle: Handle)
      requires Possible(globals.View(), SocketCount.Begin(protocol != NotSet, initRet, createRet, newHandle))
      modifies this`handle, this`status, this`lastError, this`protocol, globals
      ensures globals.View()
           == Next(old(globals.View()), SocketCount.Begin(protocol != NotSet, initRet, createRet, newHandle))
      ensures var ret := Init(old(globals.View()), initRet).1;
              var created := ret == SUCCESS && protocol != NotSet && createRet == SUCCESS;
              && (created ==>
                    status == Created && lastError == SUCCESS && handle == newHandle && handle in globals.live)
              && (!created ==> handle == old(handle))
              && this.protocol == (if ret == SUCCESS then protocol else old(this.protocol))
              && (ret != SUCCESS ==> status == Error && lastError == ret)
              && (ret == SUCCESS && protocol == NotSet ==> status == old(status) && lastError == SUCCESS)
              && (ret == SUCCESS && protocol != NotSet && createRet != SUCCESS ==>
                    status == Error && lastError == createRet)
    {
      lastError := globals.GlobalInit(initRet);
      if lastError != SUCCESS {
        status := Error;
        return;
      }
      this.protocol := protocol;
      match protocol {
        case Tcp =>
        case Udp =>
        case NotSet =>
          globals.stranded := globals.stranded + 1;
          // The check that follows takes this code for success, so the status is not touched.
          lastError := STATUS_UNINITED_CODE;
          return;
      }
      lastError := createRet;
      if lastError != SUCCESS {
        globals.stranded := globals.stranded + 1;
        status := Error;
        return;
      }
      handle := newHandle;
      globals.live := globals.live + {newHandle};
      status := Created;
    }

    method End(disconnectRet: Result, deleteRet: Result, deinitRet: Result)
      requires Possible(globals.View(), SocketCount.End(handle, disconnectRet, deleteRet, deinitRet))
      modifies this`status, this`lastError, globals
      ensures globals.View()
           == Next(old(globals.View()), SocketCount.End(handle, disconnectRet, deleteRet, deinitRet))
      ensures status == if disconnectRet == SUCCESS && deleteRet == SUCCESS then Deleted else Error
      ensures lastError == if disconnectRet != SUCCESS then disconnectRet
                           else if deleteRet != SUCCESS then deleteRet
                           else if CallsDeinit(old(globals.View()), SocketCount.End(handle, disconnectRet, deleteRet, deinitRet))
                           then deinitRet else SUCCESS
    {
      lastError := disconnectRet;
      if lastError != SUCCESS {
        status := Error;
        return;
      }
      status := Disconnected;
      lastError := deleteRet;
      if lastError != SUCCESS {
        status := Error;
        return;
      }
      globals.live := globals.live - {handle};
      status := Deleted;
      lastError := globals.GlobalDeinit(deinitRet);
    }

    method Accept(client: Socket, acceptRet: Result, newHandle: Handle, peerIp: nat) returns (ok: bool)
      requires client != this && client.globals == globals
      requires Possible(globals.View(), SocketCount.Accept(handle, acceptRet, newHandle))
      modifies this`status, this`lastError, client, globals
      ensures globals.View() == Next(old(globals.View()), SocketCount.Accept(handle, acceptRet, newHandle))
      ensures ok == (acceptRet == SUCCESS) && lastError == acceptRet
      ensures status == if ok then old(status) else Error
      ensures ok ==> client.handle == newHandle && client.status == Connected
                     && client.protocol == protocol && client.lastError == SUCCESS
                     && client.remoteIp == peerIp && client.port == port && client.outgoing == old(client.outgoing)
      ensures !ok ==> unchanged(client)
    {
      lastError := acceptRet;
      if lastError != SUCCESS {
        status := Error;
        return false;
      }
      client.handle := newHandle;
      globals.live := globals.live + {newHandle};
      globals.count := (globals.count + 1) % TWO32;
      client.remoteIp := peerIp;
      client.port := port;
      client.status := Connected;
      client.protocol := protocol;
      client.lastError := SUCCESS;
      return true;
    }

    /** What a receive does to the socket: it takes what the stack has and the buffer has room for, appends exactly
        that, and records the answer if it asked the stack at all. */
    twostate predicate Received(recvRet: Result, pending: seq<byte>, taken: seq<byte>)
      reads this, rx
    {
      var free := RX_BUFFER_SIZE - |old(rx.q)|;
      && free >= 0
      && taken == (if protocol == NotSet || recvRet != SUCCESS then [] else pending[..Min(|pending|, free)])
      && rx.q == old(rx.q) + taken
      && (free == 0 ==> status == old(status) && lastError == old(lastError))
      && (free > 0 ==>
            var code := if protocol == NotSet then STATUS_UNINITED_CODE else recvRet;
            lastError == code && status == if code == SUCCESS then old(status) else Error)
    }

    /** The receive callback.  `pending` is what the stack has for this socket; it hands over at most as
        many bytes as it is asked for, and those are `taken`. */
    method ReceiveCallback(recvRet: Result, pending: seq<byte>) returns (taken: seq<byte>)
      requires Valid()
      modifies this`status, this`lastError, rx
      ensures Valid() && Received(recvRet, pending, taken)
    {
      taken := [];
      if !rx.IsFull() {
        var request := rx.AvailableForStore();
        if protocol == NotSet {
          // As in `Begin`, this code counts as success.
          lastError := STATUS_UNINITED_CODE;
          return;
        }
        lastError := recvRet;
        if lastError != SUCCESS {
          status := Error;
          return;
        }
        taken := pending[..Min(|pending|, request)];
        StoreAll(taken);
      }
    }

    method StoreAll(bytes: seq<byte>)
      requires Valid() && |rx.q| + |bytes| <= rx.cap
      modifies rx
      ensures Valid() && rx.q == old(rx.q) + bytes
    {
      for i := 0 to |bytes|
        invariant Valid() && rx.q == old(rx.q) + bytes[..i]
      {
        assert bytes[..i + 1] == bytes[..i] + [bytes[i]];
        rx.StoreChar(bytes[i]);
      }
    }

    method Available() returns (n: nat)
      ensures n == |rx.q|
    {
      n := rx.Available();
    }

    method Receive(data: array<byte>, len: nat) returns (n: nat)
      requires Valid() && len <= data.Length
      modifies data, rx
      ensures Valid()
      ensures n == Min(len, |old(rx.q)|)
      ensures data[..n] == old(rx.q)[..n] && rx.q == old(rx.q)[n..]
      ensures forall j :: n <= j < data.Length ==> data[j] == old(data[j])
    {
      n := if rx.Available() > len then len else rx.Available();
      ghost var before := rx.q;
      var i := 0;
      while i < n
        invariant 0 <= i <= n && Valid()
        invariant rx.q == before[i..] && data[..i] == before[..i]
        invariant forall j :: n <= j < data.Length ==> data[j] == old(data[j])
      {
        var c := rx.ReadChar();
        data[i] := c;
        i := i + 1;
        assert before[i - 1..][1..] == before[i..];
      }
    }

    /** `send`, with or without an address.  The stack takes the first bytes of the data, as many as it is
        `willing` to, and their number is returned whether or not it reports a failure. */
    method Send(data: seq<byte>, sendRet: Result, willing: nat) returns (n: nat)
      modifies this`status, this`lastError, this`outgoing
      ensures n == Min(willing, |data|) && outgoing == old(outgoing) + data[..n]
      ensures lastError == sendRet && status == if sendRet == SUCCESS then old(status) else Error
    {
      n := Min(willing, |data|);
      outgoing := outgoing + data[..n];
      lastError := sendRet;
      if lastError != SUCCESS {
        status := Error;
      }
    }

    method Flush()
      requires Valid()
      modifies rx
      ensures Valid() && rx.q == []
    {
      rx.Clear();
    }
  }

  /** What happens to a connected TCP socket: the stack calls back, or the sketch reads. */
  datatype TcpEvent = Arrives(recvRet: Result, pending: seq<byte>) | Reads(len: nat)

  function AsFlow(e: TcpEvent): Flow<byte> {
    match e
    case Arrives(recvRet, pending) => Put(if recvRet == SUCCESS then pending else [])
    case Reads(len) => Take(len)
  }

  function AsFlows(es: seq<TcpEvent>): (fs: seq<Flow<byte>>)
    ensures |fs| == |es|
  {
    seq(|es|, k requires 0 <= k < |es| => AsFlow(es[k]))
  }

  /** Serves one event; `taken` is what the stack handed over in it and `got` what the sketch read. */
  method HandleTcp(socket: Socket, e: TcpEvent) returns (taken: seq<byte>, got: seq<byte>)
    requires socket.Valid() && socket.protocol == Tcp
    modifies socket`status, socket`lastError, socket.rx
    ensures socket.Valid()
    ensures |old(socket.rx.q)| <= RX_BUFFER_SIZE
    ensures Serves(RX_BUFFER_SIZE, AsFlow(e), old(socket.rx.q), got, socket.rx.q)
    ensures got + socket.rx.q == old(socket.rx.q) + taken
  {
    taken, got := [], [];
    match e
    case Arrives(recvRet, pending) =>
      taken := socket.ReceiveCallback(recvRet, pending);
    case Reads(len) =>
      var data := new byte[len](_ => 0);
      var n := socket.Receive(data, len);
      got := data[..n];
  }

  lemma Reassociate(delivered: seq<byte>, got: seq<byte>, q': seq<byte>, q: seq<byte>, more: seq<byte>)
    requires got + q' == q + more
    ensures (delivered + got) + q' == (delivered + q) + more
  {
    assert (delivered + got) + q' == delivered + (got + q');
    assert (delivered + q) + more == delivered + (q + more);
  }

  /** Receiving is free of loss: for every run of callbacks, with any failures and amounts, and of reads of
      any length, what the sketch read followed by what is buffered is every byte the stack handed over. */
  method ReplayTcp(socket: Socket, es: seq<TcpEvent>) returns (taken: seq<byte>, delivered: seq<byte>)
    requires socket.Valid() && socket.protocol == Tcp && socket.rx.q == []
    modifies socket`status, socket`lastError, socket.rx
    ensures socket.Valid() && |socket.rx.q| <= 4096
    ensures delivered + socket.rx.q == taken
    ensures Explains(RX_BUFFER_SIZE, AsFlows(es), delivered, socket.rx.q)
  {
    ghost var fs := AsFlows(es);
    taken, delivered := [], [];
    for k := 0 to |es|
      invariant socket.Valid() && delivered + socket.rx.q == taken
      invariant Explains(RX_BUFFER_SIZE, fs[..k], delivered, socket.rx.q)
    {
      ghost var q := socket.rx.q;
      var more, got := HandleTcp(socket, es[k]);
      ServeNext(RX_BUFFER_SIZE, fs, k, delivered, q, got, socket.rx.q);
      Reassociate(delivered, got, socket.rx.q, q, more);
      taken := taken + more;
      delivered := delivered + got;
    }
    assert fs[..|es|] == fs;
  }

  // ---------- a run of sends ----------

  datatype SendCall = SendCall(data: seq<byte>, sendRet: Result, willing: nat)

  /** Of each piece of data, the first `counts[k]` bytes. */
  function Prefixes(cs: seq<SendCall>, counts: seq<nat>): seq<byte>
    requires |counts| == |cs|
  {
    if cs == [] then []
    else
      var last := |cs| - 1;
      Prefixes(cs[..last], counts[..last]) + cs[last].data[..Min(counts[last], |cs[last].data|)]
  }

  lemma PrefixesNext(cs: seq<SendCall>, k: nat, counts: seq<nat>, n: nat)
    requires k < |cs| && |counts| == k && n <= |cs[k].data|
    ensures Prefixes(cs[..k + 1], counts + [n]) == Prefixes(cs[..k], counts) + cs[k].data[..n]
  {
    assert cs[..k + 1][..k] == cs[..k] && (counts + [n])[..k] == counts;
  }

  predicate AnyFails(cs: seq<SendCall>) {
    cs != [] && (AnyFails(cs[..|cs| - 1]) || cs[|cs| - 1].sendRet != SUCCESS)
  }

  /** What a run of sends leaves behind, `before` being the stream and `was` the status before it. */
  ghost predicate SendsExplain(cs: seq<SendCall>, before: seq<byte>, was: Status, counts: seq<nat>,
                               now: seq<byte>, status: Status) {
    && |counts| == |cs| && (forall k :: 0 <= k < |cs| ==> counts[k] <= |cs[k].data|)
    && now == before + Prefixes(cs, counts)
    && status == if AnyFails(cs) then Error else was
  }

  lemma SendNext(cs: seq<SendCall>, k: nat, before: seq<byte>, was: Status, counts: seq<nat>,
                 now: seq<byte>, status: Status, n: nat)
    requires k < |cs| && SendsExplain(cs[..k], before, was, counts, now, status) && n <= |cs[k].data|
    ensures SendsExplain(cs[..k + 1], before, was, counts + [n], now + cs[k].data[..n],
                         if cs[k].sendRet == SUCCESS then status else Error)
  {
    PrefixesNext(cs, k, counts, n);
    assert cs[..k + 1][..k] == cs[..k];
    assert (before + Prefixes(cs[..k], counts)) + cs[k].data[..n] == before + (Prefixes(cs[..k], counts) + cs[k].data[..n]);
  }

  /** The results of `send` account for every byte: in any run, with any failures, the stack has taken exactly
      the first `counts[k]` bytes of each piece, in order, and the status tells whether any send failed. */
  method ReplaySends(socket: Socket, cs: seq<SendCall>) returns (counts: seq<nat>)
    modifies socket`status, socket`lastError, socket`outgoing
    ensures SendsExplain(cs, old(socket.outgoing), old(socket.status), counts, socket.outgoing, socket.status)
  {
    counts := [];
    assert Prefixes([], []) == [];
    for k := 0 to |cs|
      invariant SendsExplain(cs[..k], old(socket.outgoing), old(socket.status), counts, socket.outgoing, socket.status)
    {
      ghost var now, status := socket.outgoing, socket.status;
      var n := socket.Send(cs[k].data, cs[k].sendRet, cs[k].willing);
      SendNext(cs, k, old(socket.outgoing), old(socket.status), counts, now, status, n);
      counts := counts + [n];
    }
    assert cs[..|cs|] == cs;
  }
}
