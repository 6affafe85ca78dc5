/**
 * The handshake between `rtc_write` and the interrupt handler `rtc_intr` of student-distrib/rtc.c,
 * as a state machine: the processor takes the next step of `rtc_write`, or an interrupt is handled.
 */
module Rtc {
  import opened Bytes

  /** Where `rtc_write` is, once its count has been accepted. */
  datatype Pc = SetFlag | SelectRegister | WriteRegister | Arm | Test | Spin | Rearm | Count | Final | Done(result: int)

  datatype State = State(pc: Pc, uie: bool, waiting: bool, cntr: nat, freq: nat)

  /** `rtc_intr` is passed the contents of register C. */
  datatype Event = Cpu | Interrupt(code: Byte)

  /** The interrupt codes that report an update ended. */
  predicate UpdateEnded(code: Byte) {
    code == 0x90 || code == 0xD0
  }

  function Intr(s: State, code: Byte): State {
    s.(uie := s.uie && code != 0x90 && code != 0xD0, waiting := false)
  }

  function CpuStep(s: State): State {
    match s.pc
    case SetFlag => s.(pc := SelectRegister, uie := true)
    case SelectRegister => s.(pc := WriteRegister)
    case WriteRegister => s.(pc := Arm)
    case Arm => s.(pc := Test, waiting := true)
    case Test => s.(pc := if s.uie && s.cntr < s.freq then Spin else Final)
    case Spin => if s.waiting then s else s.(pc := Rearm)
    case Rearm => s.(pc := Count, waiting := true)
    case Count => s.(pc := Test, cntr := s.cntr + 1)
    case Final => s.(pc := Done(if s.uie then -1 else 0))
    case Done(_) => s
  }

  function Step(s: State, e: Event): State {
    match e
    case Cpu => CpuStep(s)
    case Interrupt(code) => Intr(s, code)
  }

  /** The last event comes last. */
  function Run(s: State, events: seq<Event>): State {
    if events == [] then s else Step(Run(s, events[..|events| - 1]), events[|events| - 1])
  }

  predicate Accepted(cnt: int) {
    0 < cnt <= 10
  }

  /** A call of `rtc_write`, whatever the flags hold; the frequency is entry `cnt - 1` of the table. */
  function Start(cnt: int, uie: bool, waiting: bool): State {
    if Accepted(cnt) then State(SetFlag, uie, waiting, 0, Pow(2, cnt)) else State(Done(-1), uie, waiting, 0, 0)
  }

  /** The interrupts handled after the flag is set and before the final test, during a run from `s`. */
  function Handled(s: State, events: seq<Event>): (codes: seq<Byte>) {
    if events == [] then []
    else
      var before, last := events[..|events| - 1], events[|events| - 1];
      var pc := Run(s, before).pc;
      Handled(s, before) + if last.Interrupt? && pc != SetFlag && !pc.Done? then [last.code] else []
  }

  ghost predicate SomeUpdate(codes: seq<Byte>) {
    exists k :: 0 <= k < |codes| && UpdateEnded(codes[k])
  }

  lemma UpdateOnTop(codes: seq<Byte>, code: Byte)
    ensures SomeUpdate(codes + [code]) <==> SomeUpdate(codes) || UpdateEnded(code)
  {
    var more := codes + [code];
    assert more[|codes|] == code && forall k :: 0 <= k < |codes| ==> more[k] == codes[k];
  }

  /** What every interleaving keeps. */
  ghost predicate Inv(s: State, codes: seq<Byte>) {
    && (s.pc == SetFlag ==> codes == [])
    && (s.pc != SetFlag && !s.pc.Done? ==> (!s.uie <==> SomeUpdate(codes)))
    && s.cntr <= |codes|
    && (s.pc == SetFlag || s.pc == SelectRegister || s.pc == WriteRegister || s.pc == Arm ==> s.cntr == 0)
    // An interrupt since the flag was last armed is one more than those already counted.
    && ((s.pc == Test || s.pc == Spin) && !s.waiting ==> s.cntr + 1 <= |codes|)
    && (s.pc == Rearm || s.pc == Count ==> s.cntr + 1 <= |codes|)
    && (s.pc == Count && !s.waiting ==> s.cntr + 2 <= |codes|)
    && (s.pc == Spin || s.pc == Rearm || s.pc == Count ==> s.cntr < s.freq)
    && s.cntr <= s.freq
    && (s.pc == Final ==> !s.uie || s.cntr >= s.freq)
    && (s.pc.Done? ==> s.pc.result == if SomeUpdate(codes) then 0 else -1)
    && (s.pc.Done? && s.pc.result == -1 ==> |codes| >= s.freq)
  }

  lemma {:induction false} RunKeepsInv(s: State, events: seq<Event>)
    requires s.pc == SetFlag && s.cntr == 0
    ensures Inv(Run(s, events), Handled(s, events)) && Run(s, events).freq == s.freq
    decreases |events|
  {
    if events != [] {
      var before, last := events[..|events| - 1], events[|events| - 1];
      RunKeepsInv(s, before);
      var t, codes := Run(s, before), Handled(s, before);
      if last.Interrupt? && t.pc != SetFlag && !t.pc.Done? {
        UpdateOnTop(codes, last.code);
      } else {
        assert Handled(s, events) == codes;
      }
    }
  }

  lemma {:induction false} DoneStays(s: State, events: seq<Event>)
    requires s.pc.Done?
    ensures Run(s, events).pc == s.pc
  {
    if events != [] {
      DoneStays(s, events[..|events| - 1]);
    }
  }

  /**
   * For every interleaving: a finished write reports success exactly when its count is accepted and
   * an update-ended interrupt was handled in time. It reports failure for an accepted count only
   * after as many interrupts as the new frequency.
   */
  lemma WriteResult(cnt: int, uie: bool, waiting: bool, events: seq<Event>)
    requires Run(Start(cnt, uie, waiting), events).pc.Done?
    ensures var s := Start(cnt, uie, waiting);
      var codes, result := Handled(s, events), Run(s, events).pc.result;
      && (result == 0 || result == -1)
      && (result == 0 <==> Accepted(cnt) && SomeUpdate(codes))
      && (result == -1 && Accepted(cnt) ==> |codes| >= Pow(2, cnt))
  {
    var s := Start(cnt, uie, waiting);
    if Accepted(cnt) {
      RunKeepsInv(s, events);
    } else {
      DoneStays(s, events);
    }
  }

  // ---------------------------------------------------------------- progress

  /** The processor is in the inner wait and no interrupt has come since the flag was armed. */
  predicate Idle(s: State) {
    s.pc == Spin && s.waiting
  }

  /** A bound on the steps that are left, not counting those of an idle processor. */
  function StepsLeft(s: State): (n: nat)
    ensures n == 0 <==> s.pc.Done?
  {
    var rounds := if s.cntr <= s.freq then 4 * (s.freq - s.cntr) else 0;
    match s.pc
    case SetFlag => rounds + 8
    case SelectRegister => rounds + 7
    case WriteRegister => rounds + 6
    case Arm => rounds + 5
    case Test => rounds + 4
    case Spin => rounds + 3
    case Rearm => rounds + 2
    case Count => rounds + 1
    case Final => 1
    case Done(_) => 0
  }

  /** The processor steps of a run that are not taken while it is idle, nor after the end. */
  function Busy(s: State, events: seq<Event>): nat {
    if events == [] then 0
    else
      var before := events[..|events| - 1];
      var t := Run(s, before);
      Busy(s, before) + if events[|events| - 1].Cpu? && !Idle(t) && !t.pc.Done? then 1 else 0
  }

  lemma BusyStep(s: State, codes: seq<Byte>)
    requires Inv(s, codes) && !Idle(s) && !s.pc.Done?
    ensures StepsLeft(CpuStep(s)) < StepsLeft(s)
  {
  }

  lemma IdleStep(s: State, e: Event)
    requires e.Interrupt? || Idle(s) || s.pc.Done?
    ensures StepsLeft(Step(s, e)) == StepsLeft(s)
  {
  }

  /** For every interleaving: whenever the processor is not idle it comes closer to the end. */
  lemma {:induction false} BusyBound(s: State, events: seq<Event>)
    requires s.pc == SetFlag && s.cntr == 0
    ensures Busy(s, events) + StepsLeft(Run(s, events)) <= 4 * s.freq + 8
    decreases |events|
  {
    if events != [] {
      var before, last := events[..|events| - 1], events[|events| - 1];
      BusyBound(s, before);
      var t := Run(s, before);
      RunKeepsInv(s, before);
      if last.Cpu? && !Idle(t) && !t.pc.Done? {
        BusyStep(t, Handled(s, before));
      } else {
        IdleStep(t, last);
      }
    }
  }

  /** So an accepted write ends after a fixed number of such steps, however interrupts come. */
  lemma WriteEnds(cnt: int, uie: bool, waiting: bool, events: seq<Event>)
    requires Accepted(cnt) && Busy(Start(cnt, uie, waiting), events) >= 4 * Pow(2, cnt) + 8
    ensures Run(Start(cnt, uie, waiting), events).pc.Done?
  {
    BusyBound(Start(cnt, uie, waiting), events);
  }

  /** In the inner wait, nothing handled so far that would end the write. */
  predicate Waits(s: State) {
    s.pc == Spin && s.waiting && s.uie && s.cntr < s.freq
  }

  /** An interrupt, and the processor's turn until it waits again or is done. */
  function Round(code: Byte): seq<Event> {
    [Interrupt(code), Cpu, Cpu, Cpu, Cpu, Cpu]
  }

  function Rounds(codes: seq<Byte>): seq<Event> {
    if codes == [] then [] else Round(codes[0]) + Rounds(codes[1..])
  }

  lemma {:induction false} RunAppend(s: State, a: seq<Event>, b: seq<Event>)
    ensures Run(s, a + b) == Run(Run(s, a), b)
    decreases |b|
  {
    if b == [] {
      assert a + b == a;
    } else {
      var init := b[..|b| - 1];
      assert (a + b)[..|a + b| - 1] == a + init;
      RunAppend(s, a, init);
    }
  }

  lemma RunFirst(s: State, e: Event, events: seq<Event>)
    ensures Run(s, [e] + events) == Run(Step(s, e), events)
  {
    assert [e][..0] == [];
    assert Run(s, [e]) == Step(Run(s, []), e);
    RunAppend(s, [e], events);
  }

  lemma FiveSteps(s: State)
    ensures Run(s, [Cpu, Cpu, Cpu, Cpu, Cpu]) == CpuStep(CpuStep(CpuStep(CpuStep(CpuStep(s)))))
  {
    var s1 := CpuStep(s);
    var s2 := CpuStep(s1);
    var s3 := CpuStep(s2);
    var s4 := CpuStep(s3);
    RunFirst(s, Cpu, [Cpu, Cpu, Cpu, Cpu]);
    RunFirst(s1, Cpu, [Cpu, Cpu, Cpu]);
    RunFirst(s2, Cpu, [Cpu, Cpu]);
    RunFirst(s3, Cpu, [Cpu]);
    RunFirst(s4, Cpu, []);
    assert [Cpu] + [] == [Cpu] && [Cpu] + [Cpu] == [Cpu, Cpu] && [Cpu] + [Cpu, Cpu] == [Cpu, Cpu, Cpu];
    assert [Cpu] + [Cpu, Cpu, Cpu] == [Cpu, Cpu, Cpu, Cpu];
    assert [Cpu] + [Cpu, Cpu, Cpu, Cpu] == [Cpu, Cpu, Cpu, Cpu, Cpu];
  }

  /** One round ends the write with success, or with failure if it was the last one, or leads to the next wait. */
  lemma OneRound(s: State, code: Byte)
    requires Waits(s)
    ensures var t := Run(s, Round(code));
      if code == 0x90 || code == 0xD0 then t.pc == Done(0)
      else if s.cntr + 1 >= s.freq then t.pc == Done(-1)
      else Waits(t) && t == s.(cntr := s.cntr + 1)
  {
    assert Round(code) == [Interrupt(code)] + [Cpu, Cpu, Cpu, Cpu, Cpu];
    RunFirst(s, Interrupt(code), [Cpu, Cpu, Cpu, Cpu, Cpu]);
    FiveSteps(Intr(s, code));
  }

  /** Index of the first code that reports an update ended, or the number of codes. */
  function FirstUpdate(codes: seq<Byte>): (n: nat)
    ensures n <= |codes| && (n < |codes| ==> UpdateEnded(codes[n]))
    ensures forall k :: 0 <= k < n ==> !UpdateEnded(codes[k])
  {
    if codes == [] || UpdateEnded(codes[0]) then 0 else 1 + FirstUpdate(codes[1..])
  }

  lemma {:induction false} AllRounds(s: State, codes: seq<Byte>)
    requires Waits(s)
    ensures var t, n := Run(s, Rounds(codes)), FirstUpdate(codes);
      if n < |codes| && n < s.freq - s.cntr then t.pc == Done(0)
      else if |codes| >= s.freq - s.cntr then t.pc == Done(-1)
      else Waits(t)
    decreases |codes|
  {
    if codes != [] {
      var t := Run(s, Round(codes[0]));
      OneRound(s, codes[0]);
      RunAppend(s, Round(codes[0]), Rounds(codes[1..]));
      if Waits(t) {
        AllRounds(t, codes[1..]);
      } else {
        DoneStays(t, Rounds(codes[1..]));
      }
    }
  }

  /**
   * A whole write whose processor gets its turn after every interrupt: it succeeds at the first
   * update-ended interrupt, fails after as many others as the frequency, and until then still waits.
   */
  lemma WriteFinishes(cnt: int, uie: bool, waiting: bool, codes: seq<Byte>)
    requires 0 < cnt <= 10
    ensures var n := FirstUpdate(codes);
      var pc := Run(Start(cnt, uie, waiting), [Cpu, Cpu, Cpu, Cpu, Cpu] + Rounds(codes)).pc;
      if n < |codes| && n < Pow(2, cnt) then pc == Done(0)
      else if |codes| >= Pow(2, cnt) then pc == Done(-1)
      else pc == Spin
  {
    var s := Start(cnt, uie, waiting);
    FiveSteps(s);
    RunAppend(s, [Cpu, Cpu, Cpu, Cpu, Cpu], Rounds(codes));
    AllRounds(Run(s, [Cpu, Cpu, Cpu, Cpu, Cpu]), codes);
  }
}
