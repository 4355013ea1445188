/**
 The list of connected clients of a TCP server, as a sequence: what the callbacks and the
 loops over it do to it.
 */
module ClientList {
  import opened Common

  /** `s` without the first occurrence of `x`. */
  function RemoveFirst<T(==)>(s: seq<T>, x: T): seq<T> {
    if s == [] then [] else if s[0] == x then s[1..] else [s[0]] + RemoveFirst(s[1..], x)
  }

  lemma {:induction false} RemoveFirstAbsent<T>(s: seq<T>, x: T)
    requires x !in s
    ensures RemoveFirst(s, x) == s
  {
    if s != [] {
      RemoveFirstAbsent(s[1..], x);
    }
  }

  lemma {:induction false} RemoveFirstAppend<T>(s: seq<T>, y: T, x: T)
    ensures RemoveFirst(s + [y], x) == if x in s then RemoveFirst(s, x) + [y] else if x == y then s else s + [y]
  {
    if s != [] {
      assert (s + [y])[1..] == s[1..] + [y];
      RemoveFirstAppend(s[1..], y, x);
    }
  }

  /** The place of the first occurrence of `x`, and the length of the list if there is none. */
  function First<T(==)>(s: seq<T>, x: T): (i: nat)
    ensures i <= |s| && (forall j :: 0 <= j < i ==> s[j] != x) && (i < |s| ==> s[i] == x)
    ensures i < |s| <==> x in s
  {
    FirstFrom(s, x, 0)
  }

  function FirstFrom<T(==)>(s: seq<T>, x: T, from: nat): (i: nat)
    requires from <= |s|
    ensures from <= i <= |s| && (forall j :: from <= j < i ==> s[j] != x) && (i < |s| ==> s[i] == x)
    decreases |s| - from
  {
    if from == |s| || s[from] == x then from else FirstFrom(s, x, from + 1)
  }

  function Erase<T>(s: seq<T>, i: nat): (s': seq<T>)
    requires i < |s|
    ensures |s'| == |s| - 1
  {
    s[..i] + s[i + 1..]
  }

  /** Removing the first occurrence is erasing at its place. */
  lemma {:induction false} RemoveFirstIsErase<T>(s: seq<T>, x: T)
    ensures RemoveFirst(s, x) == if First(s, x) < |s| then Erase(s, First(s, x)) else s
  {
    if s == [] {
    } else if s[0] == x {
      assert Erase(s, 0) == s[1..];
    } else {
      RemoveFirstIsErase(s[1..], x);
      FirstOfTail(s, x);
      if First(s, x) < |s| {
        EraseTail(s, First(s, x));
      } else {
        assert [s[0]] + s[1..] == s;
      }
    }
  }

  lemma FirstOfTail<T>(s: seq<T>, x: T)
    requires s != [] && s[0] != x
    ensures First(s, x) == 1 + First(s[1..], x)
  {
    var i, j := First(s, x), First(s[1..], x);
    assert j < |s| - 1 ==> s[1 + j] == x;
    assert forall k :: 0 < k < 1 + j ==> s[k] == s[1..][k - 1];
    assert i < |s| ==> s[1..][i - 1] == x;
  }

  lemma EraseTail<T>(s: seq<T>, i: nat)
    requires 0 < i < |s|
    ensures Erase(s, i) == [s[0]] + Erase(s[1..], i - 1)
  {
  }

  // ---------- connecting and disconnecting ----------

  datatype Callback<H> = Connect(ok: bool, handle: H) | Disconnect(handle: H)

  /** The list after a run of callbacks, as the code keeps it. */
  function Clients<H(==)>(es: seq<Callback<H>>): seq<H> {
    if es == [] then []
    else
      var before := Clients(es[..|es| - 1]);
      match es[|es| - 1]
      case Connect(ok, h) => if ok then before + [h] else before
      case Disconnect(h) => RemoveFirst(before, h)
  }

  predicate Accepts<H>(e: Callback<H>) {
    e.Connect? && e.ok
  }

  /** The callback at `i` accepted a client that was not disconnected afterwards. */
  predicate StillOpen<H(==)>(es: seq<Callback<H>>, i: nat)
    requires i < |es|
  {
    Accepts(es[i]) && forall j :: i < j < |es| ==> es[j] != Disconnect(es[i].handle)
  }

  /** The clients accepted in the first `k` callbacks and open at the end of the run, in order of acceptance. */
  function OpenClients<H(==)>(es: seq<Callback<H>>, k: nat): seq<H>
    requires k <= |es|
  {
    if k == 0 then []
    else OpenClients(es, k - 1) + if StillOpen(es, k - 1) then [es[k - 1].handle] else []
  }

  ghost predicate NoRepeats<H>(s: seq<H>) {
    forall i, j :: 0 <= i < j < |s| ==> s[i] != s[j]
  }

  /** The stack never hands out a handle that is still listed; it may reuse one after its disconnect. */
  ghost predicate FreshHandles<H>(es: seq<Callback<H>>) {
    forall k :: 0 <= k < |es| && Accepts(es[k]) ==> es[k].handle !in Clients(es[..k])
  }

  lemma FreshPrefix<H>(es: seq<Callback<H>>, n: nat)
    requires FreshHandles(es) && n <= |es|
    ensures FreshHandles(es[..n])
  {
    forall k | 0 <= k < n && Accepts(es[k])
      ensures es[k].handle !in Clients(es[..n][..k])
    {
      assert es[..n][..k] == es[..k];
    }
  }

  lemma {:induction false} RemoveKeepsNoRepeats<H>(s: seq<H>, x: H)
    requires NoRepeats(s)
    ensures NoRepeats(RemoveFirst(s, x)) && forall y :: y in RemoveFirst(s, x) ==> y in s
  {
    if s != [] && s[0] != x {
      RemoveKeepsNoRepeats(s[1..], x);
      assert s[0] !in s[1..];
    }
  }

  /** No client is listed twice. */
  lemma {:induction false} NoDuplicates<H>(es: seq<Callback<H>>)
    requires FreshHandles(es)
    ensures NoRepeats(Clients(es))
  {
    if es != [] {
      var last := |es| - 1;
      FreshPrefix(es, last);
      NoDuplicates(es[..last]);
      if es[last].Disconnect? {
        RemoveKeepsNoRepeats(Clients(es[..last]), es[last].handle);
      }
    }
  }

  lemma {:induction false} OpenClientsGrow<H>(es: seq<Callback<H>>, k: nat, m: nat)
    requires k <= m <= |es|
    ensures OpenClients(es, k) <= OpenClients(es, m)
  {
    if k < m {
      OpenClientsGrow(es, k, m - 1);
    }
  }

  lemma {:induction false} AfterConnect<H>(es: seq<Callback<H>>, k: nat)
    requires es != [] && es[|es| - 1].Connect? && k < |es|
    ensures OpenClients(es, k) == OpenClients(es[..|es| - 1], k)
  {
    if k > 0 {
      AfterConnect(es, k - 1);
      var init := es[..|es| - 1];
      assert StillOpen(es, k - 1) == StillOpen(init, k - 1) by {
        assert init[k - 1] == es[k - 1];
        assert forall j :: k - 1 < j < |init| ==> init[j] == es[j];
      }
    }
  }

  lemma StillOpenAfterDisconnect<H>(es: seq<Callback<H>>, k: nat)
    requires es != [] && es[|es| - 1].Disconnect? && k < |es| - 1
    ensures StillOpen(es, k) <==> StillOpen(es[..|es| - 1], k) && es[k].handle != es[|es| - 1].handle
  {
    var last := |es| - 1;
    var init := es[..last];
    assert forall j :: 0 <= j < last ==> init[j] == es[j];
    if Accepts(es[k]) && es[k].handle == es[last].handle {
      assert es[last] == Disconnect(es[k].handle);
    }
  }

  /** Removing the first entry with a handle removes exactly the client that went away. */
  lemma {:induction false} AfterDisconnect<H>(es: seq<Callback<H>>, k: nat)
    requires es != [] && es[|es| - 1].Disconnect? && k < |es|
    requires NoRepeats(OpenClients(es[..|es| - 1], |es| - 1))
    ensures OpenClients(es, k) == RemoveFirst(OpenClients(es[..|es| - 1], k), es[|es| - 1].handle)
  {
    if k > 0 {
      var init, h, x := es[..|es| - 1], es[|es| - 1].handle, es[k - 1].handle;
      var before := OpenClients(init, k - 1);
      AfterDisconnect(es, k - 1);
      StillOpenAfterDisconnect(es, k - 1);
      if !StillOpen(init, k - 1) {
        assert OpenClients(init, k) == before;
      } else {
        assert OpenClients(init, k) == before + [x];
        OpenClientsGrow(init, k, |init|);
        LastIsNew(before, x, OpenClients(init, |init|));
        RemoveFirstAppend(before, x, h);
        if h !in before {
          RemoveFirstAbsent(before, h);
        }
      }
    }
  }

  lemma LastIsNew<H>(s: seq<H>, x: H, whole: seq<H>)
    requires s + [x] <= whole && NoRepeats(whole)
    ensures x !in s
  {
    assert whole[|s|] == x && forall i :: 0 <= i < |s| ==> whole[i] == s[i];
  }

  /** For callbacks in any order, with any failures of accept: the list is exactly the clients accepted and
      not disconnected since, in order of acceptance. */
  lemma {:induction false} ListIsOpenClients<H>(es: seq<Callback<H>>)
    requires FreshHandles(es)
    ensures Clients(es) == OpenClients(es, |es|)
  {
    if es != [] {
      var last := |es| - 1;
      var init := es[..last];
      FreshPrefix(es, last);
      ListIsOpenClients(init);
      NoDuplicates(init);
      match es[last]
      case Connect(_, _) => AfterConnect(es, last);
      case Disconnect(_) => AfterDisconnect(es, last);
    }
  }

  // ---------- stopping all clients ----------

  lemma EraseAt<T>(s: seq<T>, i: nat, k: nat)
    requires i < |s| && k < |s| - 1
    ensures Erase(s, i)[k] == s[if k < i then k else k + 1]
  {
  }

  lemma EraseKeepsMembers<T>(s: seq<T>, i: nat)
    requires i < |s|
    ensures forall x :: x in Erase(s, i) ==> x in s
  {
  }

  /** What the loop of `end` leaves in the list: it erases at `i` and then moves on to `i + 1`. */
  function Leftover<T>(s: seq<T>, i: nat): seq<T>
    decreases |s|
  {
    if i >= |s| then s else Leftover(Erase(s, i), (i + 1) % TWO16)
  }

  /** The clients it stops, in order. */
  function Stopped<T>(s: seq<T>, i: nat): seq<T>
    decreases |s|
  {
    if i >= |s| then [] else [s[i]] + Stopped(Erase(s, i), (i + 1) % TWO16)
  }

  /** The loop of `end` on `s` has stopped `stopped`, has `now` left in the list, and is about to look at `i`. */
  ghost predicate Halfway<T>(s: seq<T>, stopped: seq<T>, now: seq<T>, i: nat) {
    stopped + Stopped(now, i) == Stopped(s, 0) && Leftover(now, i) == Leftover(s, 0)
  }

  lemma HalfwayStarts<T>(s: seq<T>)
    ensures Halfway(s, [], s, 0)
  {
    assert [] + Stopped(s, 0) == Stopped(s, 0);
  }

  lemma HalfwayNext<T>(s: seq<T>, stopped: seq<T>, now: seq<T>, i: nat)
    requires i < |now| && Halfway(s, stopped, now, i)
    ensures Halfway(s, stopped + [now[i]], Erase(now, i), (i + 1) % TWO16)
  {
    var rest := Stopped(Erase(now, i), (i + 1) % TWO16);
    assert (stopped + [now[i]]) + rest == stopped + ([now[i]] + rest);
  }

  lemma HalfwayEnds<T>(s: seq<T>, stopped: seq<T>, now: seq<T>, i: nat)
    requires i >= |now| && Halfway(s, stopped, now, i)
    ensures stopped == Stopped(s, 0) && now == Leftover(s, 0)
  {
    assert stopped + [] == stopped;
  }

  /** The elements at odd positions. */
  function Odds<T>(s: seq<T>): (r: seq<T>)
    ensures |r| == |s| / 2
  {
    if |s| < 2 then [] else [s[1]] + Odds(s[2..])
  }

  function Evens<T>(s: seq<T>): (r: seq<T>)
    ensures |r| == (|s| + 1) / 2
  {
    if s == [] then [] else if |s| == 1 then s else [s[0]] + Evens(s[2..])
  }

  /** One round of the loop, with `kept` already passed and `rest` still ahead. */
  lemma EndLoopRound<T>(kept: seq<T>, rest: seq<T>)
    requires |kept| + 1 < TWO16 && |rest| >= 2
    ensures var kept' := kept + [rest[1]];
            && Leftover(kept + rest, |kept|) == Leftover(kept' + rest[2..], |kept'|)
            && Stopped(kept + rest, |kept|) == [rest[0]] + Stopped(kept' + rest[2..], |kept'|)
  {
    var s := kept + rest;
    assert s[|kept| + 1..] == rest[1..] && s[..|kept|] == kept;
    assert Erase(s, |kept|) == (kept + [rest[1]]) + rest[2..];
    Below16(|kept| + 1);
  }

  lemma EndLoopLast<T>(kept: seq<T>, x: T)
    requires |kept| + 1 < TWO16
    ensures Leftover(kept + [x], |kept|) == kept && Stopped(kept + [x], |kept|) == [x]
  {
    var s := kept + [x];
    assert Erase(s, |kept|) == kept;
    Below16(|kept| + 1);
  }

  lemma Below16(i: nat)
    requires i < TWO16
    ensures i % TWO16 == i
  {
  }

  lemma {:induction false} EndLoopFrom<T>(kept: seq<T>, rest: seq<T>)
    requires |kept| + (|rest| + 1) / 2 < TWO16
    ensures Leftover(kept + rest, |kept|) == kept + Odds(rest)
    ensures Stopped(kept + rest, |kept|) == Evens(rest)
    decreases |rest|
  {
    if |rest| >= 2 {
      var kept' := kept + [rest[1]];
      EndLoopRound(kept, rest);
      EndLoopFrom(kept', rest[2..]);
      Regroup(kept, [rest[1]], Odds(rest[2..]));
    } else if |rest| == 1 {
      assert rest == [rest[0]];
      EndLoopLast(kept, rest[0]);
    }
  }

  /** `end` stops exactly the clients at even positions and leaves those at odd positions, in order. */
  lemma EndStopsEveryOther<T>(s: seq<T>)
    requires |s| <= 2 * (TWO16 - 1)
    ensures Stopped(s, 0) == Evens(s) && Leftover(s, 0) == Odds(s)
  {
    assert [] + s == s;
    EndLoopFrom([], s);
    assert [] + Odds(s) == Odds(s);
  }

  lemma {:induction false} LeftoverIsShort<T>(s: seq<T>, i: nat)
    requires i < TWO16
    ensures |Leftover(s, i)| <= (i + |s| - |Leftover(s, i)|) % TWO16 < TWO16
    decreases |s|
  {
    if i < |s| {
      LeftoverIsShort(Erase(s, i), (i + 1) % TWO16);
      WrapFirst(i + 1, |s| - 1 - |Leftover(s, i)|);
    }
  }

  lemma WrapFirst(a: int, b: int)
    ensures (a % TWO16 + b) % TWO16 == (a + b) % TWO16
  {
  }

  /** Half of the clients are left exactly as long as the 16-bit index of the loop does not wrap. */
  lemma HalfAreLeftIff<T>(s: seq<T>)
    ensures |Leftover(s, 0)| == |s| / 2 <==> |s| <= 2 * (TWO16 - 1)
  {
    if |s| <= 2 * (TWO16 - 1) {
      EndStopsEveryOther(s);
    } else {
      LeftoverIsShort(s, 0);
    }
  }

  lemma {:induction false} StoppedPlusLeft<T>(s: seq<T>, i: nat)
    ensures |Stopped(s, i)| + |Leftover(s, i)| == |s|
    decreases |s|
  {
    if i < |s| {
      StoppedPlusLeft(Erase(s, i), (i + 1) % TWO16);
    }
  }

  lemma EraseCounts<T>(s: seq<T>, i: nat)
    requires i < |s|
    ensures multiset([s[i]]) + multiset(Erase(s, i)) == multiset(s)
  {
    assert s == s[..i] + [s[i]] + s[i + 1..];
  }

  /** Every client is stopped or left, and none is both. */
  lemma {:induction false} StoppedOrLeft<T>(s: seq<T>, i: nat)
    ensures multiset(Stopped(s, i)) + multiset(Leftover(s, i)) == multiset(s)
    decreases |s|
  {
    if i < |s| {
      var rest := Stopped(Erase(s, i), (i + 1) % TWO16);
      StoppedOrLeft(Erase(s, i), (i + 1) % TWO16);
      EraseCounts(s, i);
      assert multiset([s[i]] + rest) == multiset([s[i]]) + multiset(rest);
    }
  }

  lemma StoppedAreListed<T>(s: seq<T>, i: nat)
    ensures forall x :: x in Stopped(s, i) ==> x in s
  {
    StoppedOrLeft(s, i);
    forall x | x in Stopped(s, i)
      ensures x in s
    {
      assert x in multiset(Stopped(s, i)) && x in multiset(s);
    }
  }

  /** Once the index is past the start, the loop never takes the last client. */
  lemma {:induction false} LastIsNeverTaken<T>(s: seq<T>, i: nat)
    requires i < TWO16 && |s| > 0 && (|s| == 1 ==> i > 0)
    ensures Leftover(s, i) != []
    decreases |s|
  {
    if i < |s| {
      LastIsNeverTaken(Erase(s, i), (i + 1) % TWO16);
    }
  }

  /** `end` stops every client exactly when there is at most one. */
  lemma AllAreStoppedIff<T>(s: seq<T>)
    ensures Leftover(s, 0) == [] <==> |s| <= 1
  {
    if |s| == 1 {
      assert Erase(s, 0) == [];
    } else if |s| > 1 {
      LastIsNeverTaken(s, 0);
    }
  }

  // ---------- writing to all clients ----------

  /** What `write` returns when client k sent `sent[k]` bytes: the least of them, each cut to 16 bits. */
  function LeastWritten(sent: seq<nat>): nat {
    if sent == [] then 0xffff_ffff
    else
      var least := LeastWritten(sent[..|sent| - 1]);
      var last := sent[|sent| - 1] % TWO16;
      if last > least then least else last
  }

  lemma {:induction false} LeastWrittenIsLeast(sent: seq<nat>)
    ensures forall k :: 0 <= k < |sent| ==> LeastWritten(sent) <= sent[k] % TWO16
    ensures sent != [] ==> exists k :: 0 <= k < |sent| && LeastWritten(sent) == sent[k] % TWO16
    ensures sent == [] ==> LeastWritten(sent) == 0xffff_ffff
  {
    if sent != [] {
      var last := |sent| - 1;
      LeastWrittenIsLeast(sent[..last]);
      assert forall k :: 0 <= k < last ==> sent[..last][k] == sent[k];
      if sent[last] % TWO16 <= LeastWritten(sent[..last]) {
        assert LeastWritten(sent) == sent[last] % TWO16;
      } else {
        var k :| 0 <= k < last && LeastWritten(sent[..last]) == sent[..last][k] % TWO16;
        assert LeastWritten(sent) == sent[k] % TWO16;
      }
    }
  }

  /** The documented check, "the result is the size exactly when all clients got everything", holds for
      every outcome if and only if there is a client and the size fits in 16 bits.  Without a client the result
      is the largest 32-bit number, whatever the size. */
  lemma ResultTellsAllSentIff(size: nat, clients: nat)
    ensures (forall sent: seq<nat> :: |sent| == clients && (forall k :: 0 <= k < |sent| ==> sent[k] <= size) ==>
               (LeastWritten(sent) == size <==> forall k :: 0 <= k < |sent| ==> sent[k] == size))
            <==> if clients == 0 then size == 0xffff_ffff else size < TWO16
  {
    if clients == 0 {
      assert forall sent: seq<nat> :: |sent| == clients ==> LeastWritten(sent) == 0xffff_ffff;
      assert |NoneSent()| == clients;
    } else if size < TWO16 {
      forall sent: seq<nat> | |sent| == clients && (forall k :: 0 <= k < |sent| ==> sent[k] <= size)
        ensures LeastWritten(sent) == size <==> forall k :: 0 <= k < |sent| ==> sent[k] == size
      {
        ResultOfSmallWrite(size, sent);
      }
    } else {
      var all := seq(clients, _ => size);
      LeastWrittenIsLeast(all);
      assert all[0] % TWO16 < TWO16;
      assert LeastWritten(all) != size && forall k :: 0 <= k < |all| ==> all[k] == size;
    }
  }

  lemma ResultOfSmallWrite(size: nat, sent: seq<nat>)
    requires sent != [] && size < TWO16 && forall k :: 0 <= k < |sent| ==> sent[k] <= size
    ensures LeastWritten(sent) == size <==> forall k :: 0 <= k < |sent| ==> sent[k] == size
  {
    LeastWrittenIsLeast(sent);
    assert forall k :: 0 <= k < |sent| ==> sent[k] % TWO16 == sent[k];
  }

  function NoneSent(): seq<nat> {
    []
  }

  // ---------- looking for a client with data ----------

  /** The first ready client from `from` on. */
  function FirstReady(ready: seq<bool>, from: nat): (r: Option<nat>)
    requires from <= |ready|
    ensures r.Some? ==> from <= r.value < |ready| && ready[r.value] && forall k :: from <= k < r.value ==> !ready[k]
    ensures r.None? ==> forall k :: from <= k < |ready| ==> !ready[k]
    decreases |ready| - from
  {
    if from == |ready| then None else if ready[from] then Some(from) else FirstReady(ready, from + 1)
  }

  /** `available` on a list whose clients are ready or not: the client it returns, and where the cursor goes. */
  function Look(ready: seq<bool>, cursor: nat): (r: (Option<nat>, nat))
    requires ready != []
    ensures r.1 < |ready|
  {
    var from := cursor % |ready|;
    var found := FirstReady(ready, from);
    (found, if found.Some? then found.value else from)
  }

  lemma LookIs(ready: seq<bool>, cursor: nat, from: nat, i: nat)
    requires ready != [] && from == cursor % |ready| && from <= i <= |ready|
    requires (forall k :: from <= k < i ==> !ready[k]) && (i < |ready| ==> ready[i])
    ensures Look(ready, cursor) == if i < |ready| then (Some(i), i) else (None, from)
  {
    var r := FirstReady(ready, from);
    assert r.Some? ==> r.value >= i;
  }

  /** A ready client is found if and only if one stands at the cursor or behind it. */
  lemma FoundIff(ready: seq<bool>, cursor: nat)
    requires ready != []
    ensures Look(ready, cursor).0.Some? <==> exists k :: cursor % |ready| <= k < |ready| && ready[k]
  {
  }

  /** What callbacks make of the list `s`. */
  function ListFrom<H(==)>(s: seq<H>, es: seq<Callback<H>>): seq<H> {
    if es == [] then s
    else
      var before := ListFrom(s, es[..|es| - 1]);
      match es[|es| - 1]
      case Connect(ok, h) => if ok then before + [h] else before
      case Disconnect(h) => RemoveFirst(before, h)
  }

  lemma {:induction false} ListFromEmpty<H>(es: seq<Callback<H>>)
    ensures ListFrom([], es) == Clients(es)
  {
    if es != [] {
      ListFromEmpty(es[..|es| - 1]);
    }
  }

  /** Of the clients `s`, those that callbacks leave in the list. */
  function Remaining<H(==)>(s: seq<H>, es: seq<Callback<H>>): (r: seq<H>)
    ensures |r| <= |s|
  {
    if es == [] then s
    else
      var before := Remaining(s, es[..|es| - 1]);
      match es[|es| - 1]
      case Connect(_, _) => before
      case Disconnect(h) => Shorter(before, h); RemoveFirst(before, h)
  }

  lemma {:induction false} Shorter<T>(s: seq<T>, x: T)
    ensures |RemoveFirst(s, x)| <= |s|
  {
    if s != [] {
      Shorter(s[1..], x);
    }
  }

  lemma {:induction false} RemoveFirstConcat<T>(a: seq<T>, b: seq<T>, x: T)
    ensures RemoveFirst(a + b, x) == if x in a then RemoveFirst(a, x) + b else a + RemoveFirst(b, x)
  {
    if a == [] {
      assert a + b == b;
    } else {
      assert (a + b)[1..] == a[1..] + b;
      RemoveFirstConcat(a[1..], b, x);
      if a[0] != x {
        var first, rest := [a[0]], if x in a[1..] then RemoveFirst(a[1..], x) else a[1..];
        Regroup(first, rest, if x in a[1..] then b else RemoveFirst(b, x));
        assert a == first + a[1..];
      }
    }
  }

  lemma Regroup<T>(a: seq<T>, b: seq<T>, c: seq<T>)
    ensures a + (b + c) == (a + b) + c
  {
  }

  /** A client that is not disconnected keeps its place behind the clients that stood in front of it. */
  lemma {:induction false} KeepsItsPlace<H>(a: seq<H>, x: H, b: seq<H>, es: seq<Callback<H>>)
    requires Disconnect(x) !in es
    ensures Remaining(a, es) + [x] <= ListFrom(a + [x] + b, es)
  {
    if es != [] {
      var init, e := es[..|es| - 1], es[|es| - 1];
      var front, before := Remaining(a, init), ListFrom(a + [x] + b, init);
      KeepsItsPlace(a, x, b, init);
      if e.Disconnect? {
        assert e in es;
        RemoveBehindOrBefore(front, x, before, e.handle);
      }
    }
  }

  lemma RemoveBehindOrBefore<H>(front: seq<H>, x: H, s: seq<H>, h: H)
    requires front + [x] <= s && h != x
    ensures RemoveFirst(front, h) + [x] <= RemoveFirst(s, h)
  {
    var rest := s[|front| + 1..];
    assert s == (front + [x]) + rest;
    RemoveFirstConcat(front + [x], rest, h);
    RemoveFirstConcat(front, [x], h);
    assert RemoveFirst([x], h) == [x] + RemoveFirst([], h);
    if h !in front {
      RemoveFirstAbsent(front, h);
    }
  }

  /** Two calls of `available`, between which clients come and go and gain or lose data in any way.  The first call
      returned client `s[i]`, which is not disconnected before the second; it then stands at place `p`, which is
      `i` less the clients in front of it that were.  Exactly when it is returned again, and exactly when another one is.
      As long as none of those in front of it goes away, it comes again as long as it is ready, and another only
      if it is not ready and a later one is.  If one does, and the list is still longer than `i`, it is
      skipped, ready or not. */
  lemma NextCallDiffersIff<H>(s: seq<H>, ready: seq<bool>, cursor: nat, es: seq<Callback<H>>, ready': seq<bool>)
    requires s != [] && |ready| == |s| && Look(ready, cursor).0.Some?
    requires Disconnect(s[Look(ready, cursor).0.value]) !in es
    requires |ready'| == |ListFrom(s, es)|
    ensures var i, s' := Look(ready, cursor).0.value, ListFrom(s, es);
            var p := |Remaining(s[..i], es)|;
            && p <= i && p < |s'| && s'[p] == s[i]
            && var from, again := i % |s'|, Look(ready', Look(ready, cursor).1).0;
               && (again == Some(p) <==> ready'[p] && from <= p && forall k :: from <= k < p ==> !ready'[k])
               && (again.Some? && again.value != p <==>
                     exists k :: from <= k < |s'| && k != p && ready'[k] && (from <= p < k ==> !ready'[p]))
               && (p == i ==> (again == Some(p) <==> ready'[p]))
               && (p == i ==> (again.Some? && again.value != p <==> !ready'[p] && exists k :: p < k < |s'| && ready'[k]))
               && (p < i < |s'| ==> again != Some(p))
  {
    var i, s' := Look(ready, cursor).0.value, ListFrom(s, es);
    assert s == s[..i] + [s[i]] + s[i + 1..];
    KeepsItsPlace(s[..i], s[i], s[i + 1..], es);
    var front := Remaining(s[..i], es);
    var p := |front|;
    assert s'[p] == (front + [s[i]])[p] == s[i];
    if i < |s'| {
      Below(i, |s'|);
    }
    SecondLook(ready', i, p);
  }

  /** Whether a look from the cursor `i` finds place `p`, and whether it finds another one. */
  lemma SecondLook(ready: seq<bool>, i: nat, p: nat)
    requires p < |ready|
    ensures var from, found := i % |ready|, Look(ready, i).0;
            && (found == Some(p) <==> ready[p] && from <= p && forall k :: from <= k < p ==> !ready[k])
            && (found.Some? && found.value != p <==>
                  exists k :: from <= k < |ready| && k != p && ready[k] && (from <= p < k ==> !ready[p]))
  {
    var from, found := i % |ready|, Look(ready, i).0;
    if found.Some? && found.value != p {
      assert from <= found.value < |ready| && ready[found.value];
    }
  }

  /** The input on which a ready client is skipped: of three ready clients the middle one was returned last, and
      the first one leaves. */
  lemma LeavingClientHidesNext()
    ensures Look([true, true, true], 1) == (Some(1), 1)
    ensures ListFrom([7, 8, 9], [Disconnect(7)]) == [8, 9] && Look([true, true], 1) == (Some(1), 1)
  {
    assert [Disconnect(7)][..0] == [];
    assert RemoveFirst([7, 8, 9], 7) == [8, 9];
  }

  /** The result of the `n`-th of a series of calls between which nothing changes. */
  function LookAgain(ready: seq<bool>, cursor: nat, n: nat): (Option<nat>, nat)
    requires ready != []
  {
    if n == 0 then Look(ready, cursor) else Look(ready, LookAgain(ready, cursor, n - 1).1)
  }

  /** The cursor stays where a call left it. */
  lemma LookFromCursor(ready: seq<bool>, cursor: nat)
    requires ready != []
    ensures Look(ready, Look(ready, cursor).1) == Look(ready, cursor)
  {
    var at := Look(ready, cursor).1;
    Below(at, |ready|);
  }

  lemma Below(a: nat, b: nat)
    requires a < b
    ensures a % b == a
  {
  }

  /** So however often it is called, `available` returns one and the same client, or none at all. */
  lemma {:induction false} CallsRepeat(ready: seq<bool>, cursor: nat, n: nat)
    requires ready != []
    ensures LookAgain(ready, cursor, n) == Look(ready, cursor)
  {
    if n > 0 {
      CallsRepeat(ready, cursor, n - 1);
      LookFromCursor(ready, cursor);
    }
  }

  /** Of two ready clients the second is never returned. */
  lemma SecondClientIsNotReached(n: nat)
    ensures LookAgain([true, true], 0, n).0 == Some(0)
  {
    CallsRepeat([true, true], 0, n);
    assert 0 % |[true, true]| == 0;
  }

  /** A ready client in front of the cursor is never returned while the ones behind it have nothing. */
  lemma ClientBeforeCursorStarves(n: nat)
    ensures LookAgain([true, false], 1, n) == (None, 1)
  {
    CallsRepeat([true, false], 1, n);
    assert 1 % |[true, false]| == 1;
  }
}
