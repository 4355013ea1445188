/**
 Time from a free-running 32-bit microsecond counter: `millis`, `micros` and the two delays.

 True time is an unbounded number of ticks since the delay began; the counter shows it
 modulo 2^32 from an arbitrary phase.  A delay polls the counter at true times `polls(1)`,
 `polls(2)`, ...; `polls(0)`, which is time 0, is the reading it starts from.  Arithmetic on
 `unsigned long` wraps at 2^32.
 */
module Clock {
  import opened Common

  type uint32 = x: int | 0 <= x < 0x1_0000_0000

  function Wrap(x: int): uint32 {
    x % TWO32
  }

  /** `cyhal_timer_read` and `micros`: the counter, `t` ticks after it showed `phase`. */
  function Micros(phase: uint32, t: nat): uint32 {
    Wrap(phase + t)
  }

  /** `millis` divides as a real number and drops the fraction. */
  function ToMillis(us: uint32): int {
    (us as real / 1000.0).Floor
  }

  lemma MillisIsQuotient(us: uint32)
    ensures ToMillis(us) == us / 1000 && 0 <= ToMillis(us) <= 4294967
  {
    var q, r := us / 1000, us % 1000;
    assert us as real == 1000.0 * q as real + r as real;
    assert us as real / 1000.0 == q as real + r as real / 1000.0;
  }

  function Millis(phase: uint32, t: nat): (m: uint32)
    ensures m == Micros(phase, t) / 1000 <= 4294967
  {
    MillisIsQuotient(Micros(phase, t));
    ToMillis(Micros(phase, t))
  }

  /** The exit test of `delayMicroseconds`, in a poll at time `t`. */
  predicate MicrosDone(phase: uint32, t: nat, us: uint32) {
    Wrap(Micros(phase, t) - Micros(phase, 0)) >= us
  }

  /** The exit test of `delay`, in a poll at time `t`. */
  predicate MillisDone(phase: uint32, t: nat, ms: uint32) {
    Wrap(Millis(phase, t) - Millis(phase, 0)) >= ms
  }

  /** The polls start at time 0 and never go back in time. */
  ghost predicate Forward(polls: nat -> nat) {
    polls(0) == 0 && forall i, j :: 0 <= i <= j ==> polls(i) <= polls(j)
  }

  /** The loop of `delayMicroseconds`, watched for `patience` polls: the number of the poll that ends the wait,
      or `None` if none of them does and the loop is still running. */
  method DelayMicroseconds(phase: uint32, polls: nat -> nat, us: uint32, patience: nat) returns (r: Option<nat>)
    requires Forward(polls)
    ensures r.Some? ==> 0 < r.value <= patience && MicrosDone(phase, polls(r.value), us)
    ensures forall j :: 0 < j <= patience && (r.Some? ==> j < r.value) ==> !MicrosDone(phase, polls(j), us)
  {
    var start := Micros(phase, polls(0));
    var k := 1;
    while k <= patience
      invariant 0 < k <= patience + 1
      invariant forall j :: 0 < j < k ==> !MicrosDone(phase, polls(j), us)
    {
      if Wrap(Micros(phase, polls(k)) - start) >= us {
        return Some(k);
      }
      k := k + 1;
    }
    return None;
  }

  /** The loop of `delay`, in the same way. */
  method Delay(phase: uint32, polls: nat -> nat, ms: uint32, patience: nat) returns (r: Option<nat>)
    requires Forward(polls)
    ensures r.Some? ==> 0 < r.value <= patience && MillisDone(phase, polls(r.value), ms)
    ensures forall j :: 0 < j <= patience && (r.Some? ==> j < r.value) ==> !MillisDone(phase, polls(j), ms)
  {
    var start := Millis(phase, polls(0));
    var k := 1;
    while k <= patience
      invariant 0 < k <= patience + 1
      invariant forall j :: 0 < j < k ==> !MillisDone(phase, polls(j), ms)
    {
      if Wrap(Millis(phase, polls(k)) - start) >= ms {
        return Some(k);
      }
      k := k + 1;
    }
    return None;
  }

  /** Polls are at most `g` ticks apart, and go on for ever. */
  ghost predicate Advances(polls: nat -> nat, g: nat) {
    && Forward(polls) && (forall i: nat :: polls(i + 1) <= polls(i) + g)
    && forall t: nat :: Passes(polls, t)
  }

  ghost predicate Passes(polls: nat -> nat, t: nat) {
    exists n: nat :: polls(n) >= t
  }

  /** The first poll at or after a moment comes less than `g` ticks after it. */
  lemma {:induction false} PollAfter(polls: nat -> nat, g: nat, t: nat, n: nat) returns (j: nat)
    requires Forward(polls) && (forall i: nat :: polls(i + 1) <= polls(i) + g) && polls(n) >= t
    ensures j <= n && polls(j) >= t && (j > 0 ==> polls(j) < t + g)
  {
    if n > 0 && polls(n - 1) >= t {
      j := PollAfter(polls, g, t, n - 1);
    } else {
      j := n;
      if n > 0 {
        assert polls(n - 1 + 1) <= polls(n - 1) + g;
      }
    }
  }

  // ---------- microseconds ----------

  /** The wrapping difference of two readings is the true time between them, modulo 2^32. */
  lemma WrapCancels(phase: uint32, t: nat)
    ensures Wrap(Micros(phase, t) - Micros(phase, 0)) == Wrap(t)
  {
    var sum := phase + t;
    assert sum == sum / TWO32 * TWO32 + Micros(phase, t);
    WrapShift(t, sum / TWO32);
  }

  lemma WrapShift(t: int, q: int)
    ensures Wrap(t - q * TWO32) == Wrap(t)
  {
  }

  lemma WrapBelow(t: nat)
    ensures Wrap(t) <= t && (t < TWO32 ==> Wrap(t) == t)
  {
  }

  /** `delayMicroseconds` never returns early, whatever the counter showed when it began. */
  lemma MicrosNeverEarly(phase: uint32, t: nat, us: uint32)
    requires MicrosDone(phase, t, us)
    ensures t >= us
  {
    WrapCancels(phase, t);
    WrapBelow(t);
  }

  /** If polls are at most `g` apart and `us + g` fits in 32 bits, some poll ends the wait within `us + g` ticks. */
  lemma MicrosEnds(phase: uint32, polls: nat -> nat, us: uint32, g: nat) returns (k: nat)
    requires Advances(polls, g) && us + g <= TWO32
    ensures k > 0 && MicrosDone(phase, polls(k), us) && polls(k) <= us + g
  {
    assert Passes(polls, us);
    var n: nat :| polls(n) >= us;
    k := PollAfter(polls, g, us, n);
    if k == 0 {
      k := 1;
      assert polls(0 + 1) <= polls(0) + g;
    }
    WrapCancels(phase, polls(k));
    WrapBelow(polls(k));
  }

  /** So the first poll that ends the wait, where `delayMicroseconds` returns, comes within `us + g` ticks. */
  lemma MicrosOnTime(phase: uint32, polls: nat -> nat, us: uint32, g: nat, first: nat)
    requires Advances(polls, g) && us + g <= TWO32
    requires forall j :: 0 < j < first ==> !MicrosDone(phase, polls(j), us)
    ensures polls(first) <= us + g
  {
    var k := MicrosEnds(phase, polls, us, g);
    assert first <= k;
  }

  // ---------- milliseconds ----------

  /** The least true time `delay` promises, given that `millis` drops up to 999 microseconds. */
  function Least(ms: uint32): int {
    1000 * ms - 999
  }

  /** Every poll that can end the wait comes late enough. */
  ghost predicate NeverEarly(phase: uint32, ms: uint32) {
    forall t: nat :: MillisDone(phase, t, ms) ==> t >= Least(ms)
  }

  lemma EndsInTime(phase: uint32, t: nat, ms: uint32)
    requires MillisDone(phase, t, ms)
    requires phase < 1000 || phase + Least(ms) <= TWO32
    ensures t >= Least(ms)
  {
    if phase + t < TWO32 {
      assert Micros(phase, t) == phase + t;
    } else if phase < 1000 {
      assert Micros(phase, t) <= phase + t;
    }
  }

  /** A poll that ends the wait too early, when the counter is about to wrap. */
  lemma EndsTooEarly(phase: uint32, ms: uint32) returns (t: nat)
    requires phase >= 1000 && phase + Least(ms) > TWO32
    ensures MillisDone(phase, t, ms) && t < Least(ms)
  {
    var s := phase / 1000;
    if ms <= TWO32 - s {
      t := TWO32 - phase;
      assert Micros(phase, t) == 0;
    } else {
      var m := ms - (TWO32 - s);
      t := TWO32 - phase + 1000 * m;
      assert Micros(phase, t) == 1000 * m;
    }
  }

  /** `delay(ms)` waits at least 1000 ms - 999 microseconds, for every way of polling, exactly when that
      time passes before the counter wraps or the counter is in its first millisecond. */
  lemma DelayNeverEarlyIff(phase: uint32, ms: uint32)
    ensures NeverEarly(phase, ms) <==> phase < 1000 || phase + Least(ms) <= TWO32
  {
    if phase < 1000 || phase + Least(ms) <= TWO32 {
      forall t: nat | MillisDone(phase, t, ms)
        ensures t >= Least(ms)
      {
        EndsInTime(phase, t, ms);
      }
    } else {
      var t := EndsTooEarly(phase, ms);
    }
  }

  /** After a wrap the first poll that reads less than the start ends the wait, for every request of up to
      4290672329 ms. */
  lemma WrapEndsDelay(phase: uint32, t: nat, ms: uint32)
    requires Millis(phase, t) < Millis(phase, 0) && ms <= 4290672329
    ensures MillisDone(phase, t, ms)
  {
  }

  /** Any poll in this window ends the wait, from any phase of the counter. */
  lemma MillisWindow(phase: uint32, t: nat, ms: uint32)
    requires 1000 * ms <= t <= TWO32 - 1000
    ensures MillisDone(phase, t, ms)
  {
    var s := phase / 1000;
    if phase + t < TWO32 {
      assert Micros(phase, t) == phase + t;
    } else {
      assert Micros(phase, t) == phase + t - TWO32 <= phase - 1000;
      WrapEndsDelay(phase, t, ms);
    }
  }

  /** If polls are at most `g` apart and the request leaves room for that before the counter comes round, the
      wait ends within 1000 ms + g ticks. */
  lemma DelayOnTime(phase: uint32, polls: nat -> nat, ms: uint32, g: nat) returns (k: nat)
    requires Advances(polls, g) && 1000 * ms + g <= TWO32 - 1000
    ensures k > 0 && MillisDone(phase, polls(k), ms) && polls(k) <= 1000 * ms + g
  {
    assert Passes(polls, 1000 * ms);
    var n: nat :| polls(n) >= 1000 * ms;
    k := PollAfter(polls, g, 1000 * ms, n);
    if k == 0 {
      k := 1;
      assert polls(0 + 1) <= polls(0) + g;
    }
    MillisWindow(phase, polls(k), ms);
  }

  /** A longer request ends after the wrap, for any polls that are not further apart than the counter was from
      its zero when the wait began. */
  lemma LongDelayEnds(phase: uint32, polls: nat -> nat, ms: uint32, g: nat) returns (k: nat)
    requires Advances(polls, g) && ms <= 4290672329 && 0 < g <= phase / 1000 * 1000
    ensures k > 0 && MillisDone(phase, polls(k), ms) && polls(k) < TWO32 - phase + g
  {
    var t: nat := TWO32 - phase;
    assert Passes(polls, t);
    var n: nat :| polls(n) >= t;
    k := PollAfter(polls, g, t, n);
    assert Micros(phase, polls(k)) == phase + polls(k) - TWO32 < phase / 1000 * 1000;
    WrapEndsDelay(phase, polls(k), ms);
  }

  /** With a poll at every tick, `delay` returns exactly when the counter is past its first millisecond or the
      request is at most 4294967 ms; for any other polling that condition is needed too. */
  lemma DelayReturnsIff(phase: uint32, ms: uint32)
    ensures (exists k: nat :: k > 0 && MillisDone(phase, k, ms)) <==> phase >= 1000 || ms <= 4294967
    ensures !(phase >= 1000 || ms <= 4294967) ==> forall t: nat :: !MillisDone(phase, t, ms)
  {
    if phase >= 1000 {
      LateEnd(phase, ms);
    } else if ms <= 4294967 {
      EarlyEnd(phase, ms);
    } else {
      forall t: nat
        ensures !MillisDone(phase, t, ms)
      {
        assert Millis(phase, 0) == 0;
      }
    }
  }

  lemma LateEnd(phase: uint32, ms: uint32)
    requires phase >= 1000
    ensures exists t: nat :: t > 0 && MillisDone(phase, t, ms)
  {
    var m := phase / 1000 - 1;
    var t := TWO32 - phase + 1000 * m;
    assert phase + t == TWO32 + 1000 * m && Micros(phase, t) == 1000 * m;
    assert Millis(phase, t) == m && Millis(phase, 0) == m + 1 && Wrap(-1) == TWO32 - 1;
    assert t > 0 && MillisDone(phase, t, ms);
  }

  lemma EarlyEnd(phase: uint32, ms: uint32)
    requires phase < 1000 && ms <= 4294967
    ensures exists t: nat :: t > 0 && MillisDone(phase, t, ms)
  {
    if ms == 0 {
      assert MillisDone(phase, 1, ms);
    } else {
      var t: nat := 1000 * ms - phase;
      assert Micros(phase, t) / 1000 == ms;
      assert t > 0 && MillisDone(phase, t, ms);
    }
  }
}
