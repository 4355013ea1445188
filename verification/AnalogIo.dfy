/**
 The slot tables of the analog functions.  PWM: which pin drives which of the few channels, and
 with what settings; ADC: which pin has which of the two channels.

 `PwmMap` is the PWM table as a bounded map that remembers the order of its pins; `AnalogIo` is
 the code over the arrays.  Duty cycles are real numbers; a frequency is a natural number.
 */
module PwmMap {
  import opened Common

  const PWM_FREQUENCY_HZ: nat := 1000

  type Pin = nat

  datatype Settings = Settings(duty: real, frequency: nat, initialized: bool)
  const NO_SETTINGS: Settings := Settings(0.0, 0, false)

  /** The pins in the order of their slots, and the settings of each. */
  datatype Table = Table(order: seq<Pin>, settings: map<Pin, Settings>)
  const EMPTY: Table := Table([], map[])

  /** What the hardware is told. */
  datatype Order = SetUp(pin: Pin) | SetDuty(pin: Pin, duty: real, frequency: nat) | Start(pin: Pin)

  /** A call of `analogWrite` or `setAnalogWriteFrequency`; `initOk` and `dutyOk` are the hardware's answers if
      it has to set up the channel and to set the duty cycle, and `full` the top of the write resolution in force. */
  datatype Call =
    | Write(pin: Pin, value: int, full: nat, initOk: bool, dutyOk: bool)
    | SetFrequency(pin: Pin, frequency: nat)

  ghost predicate Wf(t: Table) {
    && (forall p :: p in t.order <==> p in t.settings)
    && forall i, j :: 0 <= i < j < |t.order| ==> t.order[i] != t.order[j]
  }

  /** The pin has a slot, or can get one. */
  predicate Admits(t: Table, slots: nat, maxPin: nat, pin: Pin) {
    pin <= maxPin && (pin in t.order || |t.order| < slots)
  }

  /** The table with a slot for `pin`, new slots coming last and empty. */
  function Allocated(t: Table, pin: Pin): Table {
    if pin in t.settings then t else Table(t.order + [pin], t.settings[pin := NO_SETTINGS])
  }

  function Clamp(value: int, full: nat): nat {
    if value <= 0 then 0 else if value > full then full else value
  }

  function Duty(value: int, full: nat): real
    requires full > 0
  {
    Clamp(value, full) as real / full as real * 100.0
  }

  function Effective(frequency: nat): nat {
    if frequency == 0 then PWM_FREQUENCY_HZ else frequency
  }

  /** What a call does to the table. */
  function Next(t: Table, slots: nat, maxPin: nat, c: Call): Table
    requires c.Write? ==> c.full > 0
  {
    if !Admits(t, slots, maxPin, c.pin) then t
    else
      var u := Allocated(t, c.pin);
      var s := if c.pin in u.settings then u.settings[c.pin] else NO_SETTINGS;
      match c
      case Write(pin, value, full, initOk, _) =>
        if !s.initialized && !initOk then u
        else u.(settings := u.settings[pin := Settings(Duty(value, full), Effective(s.frequency), true)])
      case SetFrequency(pin, frequency) =>
        u.(settings := u.settings[pin := s.(frequency := frequency)])
  }

  /** The channel of the pin is set up. */
  predicate SetUpIn(t: Table, pin: Pin) {
    pin in t.settings && t.settings[pin].initialized
  }

  /** What a call tells the hardware, in order. */
  function Told(t: Table, slots: nat, maxPin: nat, c: Call): seq<Order>
    requires c.Write? ==> c.full > 0
  {
    if !Admits(t, slots, maxPin, c.pin) then []
    else
      match c
      case Write(pin, value, full, initOk, dutyOk) =>
        var setUp := if SetUpIn(t, pin) then [] else [SetUp(pin)];
        if !SetUpIn(t, pin) && !initOk then setUp
        else
          var frequency := Effective(if pin in t.settings then t.settings[pin].frequency else 0);
          setUp + [SetDuty(pin, Duty(value, full), frequency)] + if dutyOk then [Start(pin)] else []
      case SetFrequency(pin, frequency) =>
        if SetUpIn(t, pin) then [SetDuty(pin, t.settings[pin].duty, frequency)] else []
  }

  ghost predicate Sensible(cs: seq<Call>) {
    forall k :: 0 <= k < |cs| && cs[k].Write? ==> cs[k].full > 0
  }

  function Run(slots: nat, maxPin: nat, cs: seq<Call>): Table
    requires Sensible(cs)
  {
    if cs == [] then EMPTY else Next(Run(slots, maxPin, cs[..|cs| - 1]), slots, maxPin, cs[|cs| - 1])
  }

  /** All that a run tells the hardware. */
  function Log(slots: nat, maxPin: nat, cs: seq<Call>): seq<Order>
    requires Sensible(cs)
  {
    if cs == [] then []
    else
      var init := cs[..|cs| - 1];
      Log(slots, maxPin, init) + Told(Run(slots, maxPin, init), slots, maxPin, cs[|cs| - 1])
  }

  lemma NextKeepsWf(t: Table, slots: nat, maxPin: nat, c: Call)
    requires Wf(t) && (c.Write? ==> c.full > 0)
    ensures Wf(Next(t, slots, maxPin, c))
    ensures t.order <= Next(t, slots, maxPin, c).order
    ensures |t.order| <= slots ==> |Next(t, slots, maxPin, c).order| <= slots
  {
  }

  lemma {:induction false} RunIsWf(slots: nat, maxPin: nat, cs: seq<Call>)
    requires Sensible(cs)
    ensures Wf(Run(slots, maxPin, cs)) && |Run(slots, maxPin, cs).order| <= slots
  {
    if cs != [] {
      var init := cs[..|cs| - 1];
      RunIsWf(slots, maxPin, init);
      NextKeepsWf(Run(slots, maxPin, init), slots, maxPin, cs[|cs| - 1]);
    }
  }

  // ---------- which pins get a slot ----------

  /** The valid pins used in a run, in the order of first use. */
  function FirstUses(maxPin: nat, cs: seq<Call>): seq<Pin> {
    if cs == [] then []
    else
      var before := FirstUses(maxPin, cs[..|cs| - 1]);
      var pin := cs[|cs| - 1].pin;
      if pin <= maxPin && pin !in before then before + [pin] else before
  }

  /** The slots go to the first pins used, in that order, as many as there are slots: a pin never moves, and
      a valid pin is refused only if all slots were taken when it first came. */
  lemma {:induction false} SlotsGoToFirstUses(slots: nat, maxPin: nat, cs: seq<Call>)
    requires Sensible(cs)
    ensures var pins := FirstUses(maxPin, cs);
            Run(slots, maxPin, cs).order == pins[..if |pins| <= slots then |pins| else slots]
  {
    if cs != [] {
      var init := cs[..|cs| - 1];
      var c := cs[|cs| - 1];
      SlotsGoToFirstUses(slots, maxPin, init);
      RunIsWf(slots, maxPin, init);
      var before, t := FirstUses(maxPin, init), Run(slots, maxPin, init);
      if |before| <= slots {
        assert before[..|before|] == before == t.order;
      } else {
        assert |t.order| == slots && forall p :: p in t.order ==> p in before;
      }
    }
  }

  // ---------- which frequency is used ----------

  /** The frequency last set for a pin, and 0 if none was. */
  function LastSet(cs: seq<Call>, pin: Pin): nat {
    if cs == [] then 0
    else
      var c := cs[|cs| - 1];
      if c.SetFrequency? && c.pin == pin then c.frequency else LastSet(cs[..|cs| - 1], pin)
  }

  /** A pin that has no slot although it was used found the table full, and it stays full. */
  lemma {:induction false} OnceRefusedAlwaysRefused(slots: nat, maxPin: nat, cs: seq<Call>, pin: Pin)
    requires Sensible(cs) && pin !in Run(slots, maxPin, cs).order && pin <= maxPin
    ensures LastSet(cs, pin) != 0 ==> |Run(slots, maxPin, cs).order| == slots
  {
    if cs != [] {
      var init := cs[..|cs| - 1];
      RunIsWf(slots, maxPin, cs);
      RunIsWf(slots, maxPin, init);
      NextKeepsWf(Run(slots, maxPin, init), slots, maxPin, cs[|cs| - 1]);
      OnceRefusedAlwaysRefused(slots, maxPin, init, pin);
    }
  }

  /** The frequency kept for a pin is the one last set for it, even if that was before its first `analogWrite`;
      0 stands for the default, in what is kept as in what is set. */
  lemma {:induction false} FrequencyKept(slots: nat, maxPin: nat, cs: seq<Call>, pin: Pin)
    requires Sensible(cs) && pin in Run(slots, maxPin, cs).settings
    ensures pin <= maxPin
    ensures Effective(Run(slots, maxPin, cs).settings[pin].frequency) == Effective(LastSet(cs, pin))
  {
    if cs != [] {
      var init := cs[..|cs| - 1];
      var before := Run(slots, maxPin, init);
      RunIsWf(slots, maxPin, init);
      if pin in before.settings {
        FrequencyKept(slots, maxPin, init, pin);
      } else {
        OnceRefusedAlwaysRefused(slots, maxPin, init, pin);
      }
    }
  }

  // ---------- how the hardware is driven ----------

  /** The settings the hardware has for a pin. */
  datatype Drive = Drive(duty: real, frequency: nat)

  /** Those in the last order that sets them for the pin. */
  function Driven(log: seq<Order>, pin: Pin): Option<Drive> {
    if log == [] then None
    else
      var last := log[|log| - 1];
      if last.SetDuty? && last.pin == pin then Some(Drive(last.duty, last.frequency)) else Driven(log[..|log| - 1], pin)
  }

  lemma {:induction false} DrivenByMore(log: seq<Order>, more: seq<Order>, pin: Pin)
    ensures Driven(log + more, pin) == if Driven(more, pin).Some? then Driven(more, pin) else Driven(log, pin)
  {
    if more == [] {
      assert log + more == log;
    } else {
      var init := more[..|more| - 1];
      assert (log + more)[..|log + more| - 1] == log + init;
      DrivenByMore(log, init, pin);
    }
  }

  /** The orders of one call drive its pin with the settings then kept, if its channel is then set up, and no other pin. */
  lemma DrivenByOne(t: Table, slots: nat, maxPin: nat, c: Call, pin: Pin)
    requires Wf(t) && (c.Write? ==> c.full > 0)
    ensures var t' := Next(t, slots, maxPin, c);
            Driven(Told(t, slots, maxPin, c), pin) ==
            if pin == c.pin && Admits(t, slots, maxPin, pin) && SetUpIn(t', pin)
            then Some(Drive(t'.settings[pin].duty, t'.settings[pin].frequency)) else None
  {
    var told := Told(t, slots, maxPin, c);
    if c.Write? && Admits(t, slots, maxPin, c.pin) && (SetUpIn(t, c.pin) || c.initOk) {
      var setUp: seq<Order> := if SetUpIn(t, c.pin) then [] else [SetUp(c.pin)];
      var s := Next(t, slots, maxPin, c).settings[c.pin];
      var duty := SetDuty(c.pin, s.duty, s.frequency);
      var start: seq<Order> := if c.dutyOk then [Start(c.pin)] else [];
      assert told == setUp + [duty] + start;
      DrivenByFew(setUp, duty, start, pin);
    } else if |told| == 1 {
      assert told[..0] == [];
    }
  }

  lemma {:induction false} DrivenByOthers(log: seq<Order>, pin: Pin)
    requires forall o :: o in log ==> !o.SetDuty?
    ensures Driven(log, pin).None?
  {
    if log != [] {
      assert log[|log| - 1] in log;
      DrivenByOthers(log[..|log| - 1], pin);
    }
  }

  lemma DrivenByFew(setUp: seq<Order>, duty: Order, start: seq<Order>, pin: Pin)
    requires duty.SetDuty?
    requires (forall o :: o in setUp ==> o.SetUp?) && (forall o :: o in start ==> o.Start?)
    ensures Driven(setUp + [duty] + start, pin) == if pin == duty.pin then Some(Drive(duty.duty, duty.frequency)) else None
  {
    assert Driven([duty], pin) == if pin == duty.pin then Some(Drive(duty.duty, duty.frequency)) else None by {
      assert [duty][..0] == [];
    }
    DrivenByOthers(setUp, pin);
    DrivenByOthers(start, pin);
    DrivenByMore(setUp, [duty], pin);
    DrivenByMore(setUp + [duty], start, pin);
  }

  /** The hardware drives a pin exactly if its channel is set up, and then with the settings kept for it. */
  lemma {:induction false} DrivenAsKept(slots: nat, maxPin: nat, cs: seq<Call>, pin: Pin)
    requires Sensible(cs)
    ensures var t := Run(slots, maxPin, cs);
            Driven(Log(slots, maxPin, cs), pin) ==
            if SetUpIn(t, pin) then Some(Drive(t.settings[pin].duty, t.settings[pin].frequency)) else None
  {
    if cs != [] {
      var init := cs[..|cs| - 1];
      var c, t := cs[|cs| - 1], Run(slots, maxPin, init);
      RunIsWf(slots, maxPin, init);
      DrivenAsKept(slots, maxPin, init, pin);
      DrivenByOne(t, slots, maxPin, c, pin);
      DrivenByMore(Log(slots, maxPin, init), Told(t, slots, maxPin, c), pin);
    }
  }

  /** The last call for the pin is one that sets its frequency to 0. */
  predicate ZeroedLast(cs: seq<Call>, pin: Pin) {
    cs != [] &&
    var c := cs[|cs| - 1];
    if c.pin == pin then c == SetFrequency(pin, 0) else ZeroedLast(cs[..|cs| - 1], pin)
  }

  /** What is kept for a pin whose channel is set up is 0 exactly after such a call. */
  lemma {:induction false} ZeroIsKeptIff(slots: nat, maxPin: nat, cs: seq<Call>, pin: Pin)
    requires Sensible(cs) && SetUpIn(Run(slots, maxPin, cs), pin)
    ensures Run(slots, maxPin, cs).settings[pin].frequency == 0 <==> ZeroedLast(cs, pin)
  {
    if cs != [] {
      var init := cs[..|cs| - 1];
      RunIsWf(slots, maxPin, init);
      FrequencyKept(slots, maxPin, cs, pin);
      if cs[|cs| - 1].pin != pin {
        ZeroIsKeptIff(slots, maxPin, init, pin);
      } else {
        assert pin in Run(slots, maxPin, cs).order by { RunIsWf(slots, maxPin, cs); }
        assert Admits(Run(slots, maxPin, init), slots, maxPin, pin);
      }
    }
  }

  /** In every run, with any answers of the hardware, a pin that is driven at all is driven at the frequency last
      set for it, or at the default if none or 0 was set, except exactly if 0 was set while its channel was
      set up and it was not written since: then the hardware was told 0. */
  lemma DrivenAsSetIff(slots: nat, maxPin: nat, cs: seq<Call>, pin: Pin)
    requires Sensible(cs) && Driven(Log(slots, maxPin, cs), pin).Some?
    ensures var frequency, last := Driven(Log(slots, maxPin, cs), pin).value.frequency, LastSet(cs, pin);
            && (frequency == (if last == 0 then 1000 else last) <==> !ZeroedLast(cs, pin))
            && (ZeroedLast(cs, pin) ==> frequency == 0)
  {
    DrivenAsKept(slots, maxPin, cs, pin);
    FrequencyKept(slots, maxPin, cs, pin);
    ZeroIsKeptIff(slots, maxPin, cs, pin);
  }

  /** The duty cycle, in percent, that a value stands for at a resolution whose top is `full`: in proportion, and
      at the ends of the range outside it. */
  ghost predicate IsDuty(duty: real, value: int, full: nat) {
    && (value <= 0 ==> duty == 0.0)
    && (value >= full ==> duty == 100.0)
    && (0 <= value <= full ==> duty * full as real == 100.0 * value as real)
  }

  lemma DutyIsDuty(value: int, full: nat)
    requires full > 0
    ensures IsDuty(Duty(value, full), value, full)
  {
    var part := Clamp(value, full) as real;
    assert part / full as real * full as real == part;
    if value >= full {
      assert part / full as real == 1.0;
    }
  }

  /** The last `analogWrite` for a pin. */
  function LastWrite(cs: seq<Call>, pin: Pin): Option<Call> {
    if cs == [] then None
    else
      var c := cs[|cs| - 1];
      if c.Write? && c.pin == pin then Some(c) else LastWrite(cs[..|cs| - 1], pin)
  }

  /** The duty cycle kept for a pin whose channel is set up is that of the last write to it. */
  ghost predicate KeepsLastWrite(t: Table, cs: seq<Call>, pin: Pin) {
    SetUpIn(t, pin) ==>
      var last := LastWrite(cs, pin);
      last.Some? && last.value.Write? && IsDuty(t.settings[pin].duty, last.value.value, last.value.full)
  }

  lemma {:induction false} DutyKept(slots: nat, maxPin: nat, cs: seq<Call>, pin: Pin)
    requires Sensible(cs)
    ensures KeepsLastWrite(Run(slots, maxPin, cs), cs, pin)
  {
    if cs != [] {
      var init, c := cs[..|cs| - 1], cs[|cs| - 1];
      var before := Run(slots, maxPin, init);
      RunIsWf(slots, maxPin, init);
      DutyKept(slots, maxPin, init, pin);
      if c.Write? && c.pin == pin && SetUpIn(Run(slots, maxPin, cs), pin) {
        FrequencyKept(slots, maxPin, cs, pin);
        WriteSetsDuty(before, slots, maxPin, c);
      }
    }
  }

  /** After a write to a pin whose channel is then set up, the duty cycle is that of the write. */
  lemma WriteSetsDuty(t: Table, slots: nat, maxPin: nat, c: Call)
    requires Wf(t) && c.Write? && c.full > 0 && c.pin <= maxPin && SetUpIn(Next(t, slots, maxPin, c), c.pin)
    ensures IsDuty(Next(t, slots, maxPin, c).settings[c.pin].duty, c.value, c.full)
  {
    DutyIsDuty(c.value, c.full);
    assert Admits(t, slots, maxPin, c.pin);
  }

  /** In every run, with any answers of the hardware, a pin that is driven at all is driven with the duty cycle of the
      last write to it, also after its frequency was set. */
  lemma DrivenAsWritten(slots: nat, maxPin: nat, cs: seq<Call>, pin: Pin)
    requires Sensible(cs) && Driven(Log(slots, maxPin, cs), pin).Some?
    ensures var last := LastWrite(cs, pin);
            last.Some? && last.value.Write? &&
            IsDuty(Driven(Log(slots, maxPin, cs), pin).value.duty, last.value.value, last.value.full)
  {
    DrivenAsKept(slots, maxPin, cs, pin);
    DutyKept(slots, maxPin, cs, pin);
  }

  /** Which channels a call tells the hardware to set up and to start: a channel is set up by a write to its pin, once;
      and started at the end of every write whose duty cycle the hardware took. */
  lemma SetUpAndStartIff(t: Table, slots: nat, maxPin: nat, c: Call, pin: Pin)
    requires Wf(t) && (c.Write? ==> c.full > 0)
    ensures var told := Told(t, slots, maxPin, c);
            && (SetUp(pin) in told <==> c.Write? && c.pin == pin && Admits(t, slots, maxPin, pin) && !SetUpIn(t, pin))
            && (Start(pin) in told <==> c.Write? && c.pin == pin && Admits(t, slots, maxPin, pin)
                                        && (SetUpIn(t, pin) || c.initOk) && c.dutyOk)
            && (Start(pin) in told ==> told[|told| - 1] == Start(pin))
            && (SetUp(pin) in told ==> told[0] == SetUp(pin))
  {
    if Admits(t, slots, maxPin, c.pin) && c.Write? && (SetUpIn(t, c.pin) || c.initOk) {
      var setUp: seq<Order> := if SetUpIn(t, c.pin) then [] else [SetUp(c.pin)];
      var frequency := Effective(if c.pin in t.settings then t.settings[c.pin].frequency else 0);
      var start: seq<Order> := if c.dutyOk then [Start(c.pin)] else [];
      assert Told(t, slots, maxPin, c) == setUp + [SetDuty(c.pin, Duty(c.value, c.full), frequency)] + start;
      InThree(setUp, SetDuty(c.pin, Duty(c.value, c.full), frequency), start, SetUp(pin));
      InThree(setUp, SetDuty(c.pin, Duty(c.value, c.full), frequency), start, Start(pin));
    }
  }

  lemma InThree(a: seq<Order>, b: Order, c: seq<Order>, o: Order)
    ensures o in a + [b] + c <==> o in a || o == b || o in c
  {
  }

  /** The smallest such run. */
  lemma ZeroReachesTheHardware(pin: Pin, maxPin: nat)
    requires pin <= maxPin
    ensures var cs := [Write(pin, 1, 255, true, true), SetFrequency(pin, 0)];
            && Sensible(cs) && Driven(Log(1, maxPin, cs), pin).Some?
            && Driven(Log(1, maxPin, cs), pin).value.frequency == 0
  {
    var first := [Write(pin, 1, 255, true, true)];
    var cs := [Write(pin, 1, 255, true, true), SetFrequency(pin, 0)];
    assert cs[..1] == first && first[..0] == [];
    assert Run(1, maxPin, first) == Next(EMPTY, 1, maxPin, first[0]);
    assert SetUpIn(Run(1, maxPin, first), pin);
    assert Run(1, maxPin, cs) == Next(Run(1, maxPin, first), 1, maxPin, cs[1]);
    DrivenAsKept(1, maxPin, cs, pin);
  }
}

module AnalogIo {
  import opened Common
  import opened PwmMap

  datatype Slot = Slot(pin: Pin, duty: real, frequency: nat, initialized: bool, used: bool)

  class Pwm {
    const slots: array<Slot>
    const maxPin: nat
    ghost var table: Table

    /** The used slots come first and hold the table in order. */
    ghost predicate Valid()
      reads this, slots
    {
      && Wf(table) && |table.order| <= slots.Length
      && (forall k :: 0 <= k < |table.order| ==> slots[k] == SlotOf(table, k))
      && (forall k :: |table.order| <= k < slots.Length ==> !slots[k].used)
    }

    static ghost function SlotOf(t: Table, k: nat): Slot
      requires Wf(t) && k < |t.order|
    {
      var s := t.settings[t.order[k]];
      Slot(t.order[k], s.duty, s.frequency, s.initialized, true)
    }

    constructor (howMany: nat, maxPin: nat)
      ensures Valid() && table == EMPTY && slots.Length == howMany && this.maxPin == maxPin
    {
      slots := new Slot[howMany](_ => Slot(0, 0.0, 0, false, false));
      this.maxPin := maxPin;
      table := EMPTY;
    }

    /** `None` stands for the null pointer. */
    method Alloc(pin: Pin) returns (r: Option<nat>)
      requires Valid()
      modifies this`table, slots
      ensures Valid()
      ensures r.Some? <==> Admits(old(table), slots.Length, maxPin, pin)
      ensures table == if r.Some? then Allocated(old(table), pin) else old(table)
      ensures r.Some? ==> r.value < |table.order| && table.order[r.value] == pin
    {
      if pin > maxPin {
        return None;
      }
      for i := 0 to slots.Length
        invariant forall k :: 0 <= k < i ==> !(slots[k].used && slots[k].pin == pin)
      {
        if slots[i].used && slots[i].pin == pin {
          return Some(i);
        }
      }
      assert pin !in table.order by {
        assert forall k :: 0 <= k < |table.order| ==> slots[k].used && slots[k].pin == table.order[k];
      }
      for i := 0 to slots.Length
        invariant i <= |table.order|
      {
        if !slots[i].used {
          slots[i] := Slot(pin, 0.0, 0, false, true);
          table := Allocated(table, pin);
          return Some(i);
        }
      }
      return None;
    }

    /** Overwrites the settings of the pin in slot `i`. */
    method Store(i: nat, s: Settings)
      requires Valid() && i < |table.order|
      modifies this`table, slots
      ensures Valid() && table == old(table).(settings := old(table).settings[old(table).order[i] := s])
    {
      slots[i] := Slot(slots[i].pin, s.duty, s.frequency, s.initialized, true);
      table := table.(settings := table.settings[table.order[i] := s]);
    }

    /** `initOk` and `dutyOk` are the answers of the hardware; `told` is what it was told, in order. */
    method AnalogWrite(pin: Pin, value: int, full: nat, initOk: bool, dutyOk: bool) returns (told: seq<Order>)
      requires Valid() && full > 0
      modifies this`table, slots
      ensures Valid()
      ensures var c := Write(pin, value, full, initOk, dutyOk);
              && table == Next(old(table), slots.Length, maxPin, c)
              && told == Told(old(table), slots.Length, maxPin, c)
      ensures forall o :: o in told && o.SetDuty? ==> o.pin == pin && IsDuty(o.duty, value, full)
    {
      told := [];
      var r := Alloc(pin);
      if r.None? {
        return;
      }
      var i := r.value;
      if !slots[i].initialized {
        told := [SetUp(pin)];
        if !initOk {
          return;
        }
      }
      var pwmValue := value;
      if pwmValue <= 0 {
        pwmValue := 0;
      }
      if pwmValue > full {
        pwmValue := full;
      }
      var duty := pwmValue as real / full as real * 100.0;
      DutyIsDuty(value, full);
      var frequency := slots[i].frequency;
      if frequency == 0 {
        frequency := PWM_FREQUENCY_HZ;
      }
      Store(i, Settings(duty, frequency, true));
      told := told + [SetDuty(pin, duty, frequency)];
      if dutyOk {
        told := told + [Start(pin)];
      }
    }

    method SetAnalogWriteFrequency(pin: Pin, frequency: nat) returns (told: seq<Order>)
      requires Valid()
      modifies this`table, slots
      ensures Valid()
      ensures table == Next(old(table), slots.Length, maxPin, SetFrequency(pin, frequency))
      ensures told == Told(old(table), slots.Length, maxPin, SetFrequency(pin, frequency))
    {
      told := [];
      var r := Alloc(pin);
      if r.None? {
        return;
      }
      var i := r.value;
      var slot := slots[i];
      Store(i, Settings(slot.duty, frequency, slot.initialized));
      if slot.initialized {
        told := [SetDuty(pin, slot.duty, frequency)];
      }
    }
  }

  /** Any run of calls, with any answers of the hardware, brings the array to the table `Run` describes and
      tells the hardware what `Log` lists. */
  method Replay(pwm: Pwm, cs: seq<Call>) returns (log: seq<Order>)
    requires pwm.Valid() && pwm.table == EMPTY && Sensible(cs)
    modifies pwm`table, pwm.slots
    ensures pwm.Valid() && pwm.table == Run(pwm.slots.Length, pwm.maxPin, cs)
    ensures log == Log(pwm.slots.Length, pwm.maxPin, cs)
  {
    log := [];
    for k := 0 to |cs|
      invariant pwm.Valid() && pwm.table == Run(pwm.slots.Length, pwm.maxPin, cs[..k])
      invariant log == Log(pwm.slots.Length, pwm.maxPin, cs[..k])
    {
      assert cs[..k + 1][..k] == cs[..k];
      var told;
      match cs[k] {
        case Write(pin, value, full, initOk, dutyOk) =>
          told := pwm.AnalogWrite(pin, value, full, initOk, dutyOk);
        case SetFrequency(pin, frequency) =>
          told := pwm.SetAnalogWriteFrequency(pin, frequency);
      }
      log := log + told;
    }
    assert cs[..|cs|] == cs;
  }

  // ---------- analog input ----------

  datatype Channel = Channel(pin: Pin, initialized: bool)

  class Adc {
    const channels: array<Channel>
    ghost var pins: seq<Pin>

    /** The channels in use come first, one for each pin. */
    ghost predicate Valid()
      reads this, channels
    {
      && |pins| <= channels.Length
      && (forall i, j :: 0 <= i < j < |pins| ==> pins[i] != pins[j])
      && (forall k :: 0 <= k < |pins| ==> channels[k] == Channel(pins[k], true))
      && (forall k :: |pins| <= k < channels.Length ==> !channels[k].initialized)
    }

    constructor (howMany: nat)
      ensures Valid() && pins == [] && channels.Length == howMany
    {
      channels := new Channel[howMany](_ => Channel(0, false));
      pins := [];
    }

    /** The channel lookup of `analogRead`: the index of the pin's channel, the number of channels if there is
        none for it, or the error code 255 if setting one up fails. */
    method Select(pin: Pin, initOk: bool) returns (index: nat, failed: bool)
      requires Valid()
      modifies this`pins, channels
      ensures Valid()
      ensures failed == (pin !in old(pins) && |old(pins)| < channels.Length && !initOk)
      ensures pins == if pin !in old(pins) && |old(pins)| < channels.Length && initOk
                      then old(pins) + [pin] else old(pins)
      ensures !failed ==> if pin in pins then index < |pins| && pins[index] == pin else index == channels.Length
    {
      index, failed := 0, false;
      while index < channels.Length
        invariant index <= |pins| && pins == old(pins) && Valid()
        invariant forall k :: 0 <= k < index ==> pins[k] != pin
      {
        if channels[index].initialized {
          if channels[index].pin == pin {
            return;
          }
        } else {
          if !initOk {
            return index, true;
          }
          channels[index] := Channel(pin, true);
          pins := pins + [pin];
          return;
        }
        index := index + 1;
      }
    }
  }
}
