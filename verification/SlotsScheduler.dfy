/** The DMA thread of the slots engine interleaved with the host: atomic steps between waits. */
module SlotsScheduler {
  import opened Bits
  import opened SlotsEngine

  /** Where the thread stands: about to scan, yielding after it started the read of the slot in
      service, yielding after it cleared that slot's doorbell, or waiting for the event. */
  datatype Pc = Scanning | Reading | Finishing | Sleeping

  /** `full` are the full doorbells, `slot` the last slot selected (or where the scan started),
      `notified` an event notification that has not fired yet. */
  datatype State = State(full: seq<U64>, pc: Pc, slot: nat, notified: bool)

  datatype Step =
    | HostRings(slot: nat, t: DoorbellType, value: U64)
    | HostResets
    | EventFires
    | EngineScans(chosen: nat, configured: bool)
    | EngineSleeps
    | EngineClears
    | EngineFinishes

  /** Which steps can happen: the engine's own ones at its wait points, with the scan's result
      being what `FindNextFullDoorbell` promises. */
  ghost predicate Enabled(s: State, step: Step) {
    match step
    case HostRings(_, _, _) => true
    case HostResets => true
    case EventFires => s.notified
    case EngineScans(chosen, _) => s.pc.Scanning? && FirstFull(s.full, s.slot, chosen)
    case EngineSleeps => s.pc.Scanning? && NoneFull(s.full)
    case EngineClears => s.pc.Reading?
    case EngineFinishes => s.pc.Finishing?
  }

  /** A slot without a buffer is cleared at once; a configured one is read first. */
  function After(s: State, step: Step): State
    requires s.slot < |s.full| && (step.EngineScans? ==> step.chosen < |s.full|)
  {
    match step
    case HostRings(slot, t, value) =>
      if slot >= |s.full| then s
      else s.(full := if t.Full? then s.full[slot := value] else s.full,
              notified := s.notified || value != 0)
    case HostResets => s.(full := seq<U64>(|s.full|, _ => 0))
    case EventFires => s.(notified := false, pc := if s.pc.Sleeping? then Scanning else s.pc)
    case EngineScans(chosen, configured) =>
      if configured then s.(slot := chosen, pc := Reading)
      else s.(slot := chosen, full := s.full[chosen := 0])
    case EngineSleeps => s.(pc := Sleeping)
    case EngineClears => s.(full := s.full[s.slot := 0], pc := Finishing)
    case EngineFinishes => s.(pc := Scanning)
  }

  /** No doorbell is stranded: asleep, a non-zero full doorbell means a wake-up is on its way. */
  ghost predicate SchedulerInv(s: State) {
    && s.slot < |s.full|
    && (s.pc.Sleeping? && !NoneFull(s.full) ==> s.notified)
  }

  ghost predicate LegalRun(s: State, steps: seq<Step>)
    requires s.slot < |s.full|
    decreases |steps|
  {
    steps == [] || (Enabled(s, steps[0]) && LegalRun(After(s, steps[0]), steps[1..]))
  }

  ghost function Run(s: State, steps: seq<Step>): State
    requires s.slot < |s.full| && LegalRun(s, steps)
    decreases |steps|
  {
    if steps == [] then s else Run(After(s, steps[0]), steps[1..])
  }

  /** The thread's start: nothing rung, the scan to begin with slot 0. */
  ghost predicate Start(s: State) {
    0 < |s.full| && s == State(seq<U64>(|s.full|, _ => 0), Scanning, |s.full| - 1, false)
  }

  lemma StepKeepsWakeup(s: State, step: Step)
    requires SchedulerInv(s) && Enabled(s, step)
    ensures SchedulerInv(After(s, step))
  {
    match step {
      case HostRings(slot, t, value) =>
        if s.pc.Sleeping? && slot < |s.full| && value == 0 && NoneFull(s.full) {
          assert NoneFull(After(s, step).full);
        }
      case _ =>
    }
  }

  lemma {:induction false} WakeupAlongRun(s: State, steps: seq<Step>)
    requires SchedulerInv(s) && LegalRun(s, steps)
    ensures SchedulerInv(Run(s, steps))
    decreases |steps|
  {
    if steps != [] {
      StepKeepsWakeup(s, steps[0]);
      WakeupAlongRun(After(s, steps[0]), steps[1..]);
    }
  }

  /** In every interleaving of the host and the engine, whenever the thread sleeps while a full
      doorbell is non-zero, a notification that will wake it is pending. */
  lemma NoDoorbellStranded(s: State, steps: seq<Step>, slot: nat)
    requires Start(s) && LegalRun(s, steps)
    ensures var e := Run(s, steps);
            e.pc.Sleeping? && slot < |e.full| && e.full[slot] != 0 ==> e.notified
  {
    WakeupAlongRun(s, steps);
  }

  /** A scan that meets a full doorbell selects one; it cannot fall asleep. */
  lemma RungScanSelects(s: State, slot: nat) returns (chosen: nat)
    requires s.slot < |s.full| && s.pc.Scanning? && slot < |s.full| && s.full[slot] != 0
    ensures chosen < |s.full| && Enabled(s, EngineScans(chosen, true)) && !Enabled(s, EngineSleeps)
  {
    var n, d := |s.full|, 0;
    while s.full[SlotAfter(s.slot, d, n)] == 0
      invariant d < n
      invariant forall t :: 0 <= t < n && Distance(s.slot, t, n) < d ==> s.full[t] == 0
      decreases n - d
    {
      assert Distance(s.slot, slot, n) > d;
      d := d + 1;
    }
    chosen := SlotAfter(s.slot, d, n);
  }

  // ----- Round robin

  /** Selecting a slot brings every other full doorbell strictly closer. */
  lemma SelectionApproaches(full: seq<U64>, last: nat, chosen: nat, s: nat)
    requires FirstFull(full, last, chosen) && s < |full| && full[s] != 0 && chosen != s
    ensures Distance(chosen, s, |full|) < Distance(last, s, |full|)
  {
  }

  /** Selections of other slots than `s` along a run. */
  function OtherSelections(steps: seq<Step>, s: nat): nat {
    if steps == [] then 0
    else (if steps[0].EngineScans? && steps[0].chosen != s then 1 else 0) + OtherSelections(steps[1..], s)
  }

  ghost predicate NeverSelected(steps: seq<Step>, s: nat) {
    forall k :: 0 <= k < |steps| && steps[k].EngineScans? ==> steps[k].chosen != s
  }

  /** The host does not take the doorbell back. */
  ghost predicate HostKeeps(steps: seq<Step>, s: nat) {
    forall k :: 0 <= k < |steps| ==>
      !steps[k].HostResets?
      && (steps[k].HostRings? && steps[k].t.Full? && steps[k].slot == s ==> steps[k].value != 0)
  }

  /** The slot is the one whose doorbell the engine will clear at its next step. */
  predicate AboutToClear(s: State, slot: nat) {
    s.pc.Reading? && s.slot == slot
  }

  /** A doorbell the host keeps and the scan does not pick falls only when the slot in service
      is cleared. */
  lemma DoorbellFallsIff(s: State, step: Step, slot: nat)
    requires SchedulerInv(s) && Enabled(s, step) && slot < |s.full| && s.full[slot] != 0
    requires HostKeeps([step], slot) && !(step.EngineScans? && step.chosen == slot)
    ensures After(s, step).full[slot] == 0 <==> step.EngineClears? && AboutToClear(s, slot)
  {
    assert [step][0] == step;
  }

  /** A full doorbell that the host leaves rung and whose slot is not in service is passed over
      at most as often as there are slots between it and the last one selected, whatever the
      host does to the other slots. */
  lemma {:induction false} PassedOverAtMost(s: State, steps: seq<Step>, slot: nat)
    requires SchedulerInv(s) && LegalRun(s, steps)
    requires slot < |s.full| && s.full[slot] != 0 && !AboutToClear(s, slot)
    requires HostKeeps(steps, slot) && NeverSelected(steps, slot)
    ensures OtherSelections(steps, slot) <= Distance(s.slot, slot, |s.full|)
    ensures |Run(s, steps).full| == |s.full| && Run(s, steps).full[slot] != 0
    decreases |steps|
  {
    if steps != [] {
      var step := steps[0];
      var next := After(s, step);
      StepKeepsWakeup(s, step);
      assert [step][0] == step && HostKeeps([step], slot);
      DoorbellFallsIff(s, step, slot);
      if step.EngineScans? {
        SelectionApproaches(s.full, s.slot, step.chosen, slot);
      }
      PassedOverAtMost(next, steps[1..], slot);
    }
  }

  /** So a full doorbell is selected within as many selections as there are slots. */
  lemma SelectedWithinOneRound(s: State, steps: seq<Step>, slot: nat)
    requires SchedulerInv(s) && LegalRun(s, steps)
    requires slot < |s.full| && s.full[slot] != 0 && !AboutToClear(s, slot)
    requires HostKeeps(steps, slot) && OtherSelections(steps, slot) >= |s.full|
    ensures exists k :: 0 <= k < |steps| && steps[k].EngineScans? && steps[k].chosen == slot
  {
    if NeverSelected(steps, slot) {
      PassedOverAtMost(s, steps, slot);
    }
  }

  // ----- Rings that are lost

  /** The host does not ring the doorbell. */
  ghost predicate HostSilent(steps: seq<Step>, s: nat) {
    forall k :: 0 <= k < |steps| ==> !(steps[k].HostRings? && steps[k].t.Full? && steps[k].slot == s)
  }

  /** A ring that arrives while the slot in service waits to be cleared is lost for ever: until
      the host rings again, no legal run selects the slot. */
  lemma {:induction false} LostRingNeverSelected(s: State, steps: seq<Step>, slot: nat)
    requires SchedulerInv(s) && LegalRun(s, steps) && HostSilent(steps, slot)
    requires slot < |s.full| && (AboutToClear(s, slot) || s.full[slot] == 0)
    ensures NeverSelected(steps, slot)
    decreases |steps|
  {
    if steps != [] {
      StepKeepsWakeup(s, steps[0]);
      LostRingNeverSelected(After(s, steps[0]), steps[1..], slot);
      assert forall k :: 1 <= k < |steps| ==> steps[k] == steps[1..][k - 1];
    }
  }

  /** A run that starves the slot: legal, with the doorbell left alone and other slots selected
      `n` times. */
  ghost predicate Starves(s: State, steps: seq<Step>, slot: nat, n: nat)
    requires s.slot < |s.full|
  {
    LegalRun(s, steps) && HostKeeps(steps, slot) && NeverSelected(steps, slot) && OtherSelections(steps, slot) == n
  }

  lemma StarvesLonger(s: State, step: Step, rest: seq<Step>, slot: nat, n: nat)
    requires SchedulerInv(s) && Enabled(s, step) && Starves(After(s, step), rest, slot, n)
    requires HostKeeps([step], slot) && NeverSelected([step], slot)
    ensures Starves(s, [step] + rest, slot, n + OtherSelections([step], slot))
  {
    var steps := [step] + rest;
    assert steps[1..] == rest && [step][0] == step && [step][1..] == [];
    assert forall k :: 1 <= k < |steps| ==> steps[k] == rest[k - 1];
  }

  /** Once its doorbell is down, a slot can be passed over for as long as others are rung. */
  lemma {:induction false} StarvingRun(s: State, slot: nat, other: nat, n: nat) returns (steps: seq<Step>)
    requires SchedulerInv(s) && s.pc.Scanning? && slot < |s.full| && s.full[slot] == 0
    requires other < |s.full| && other != slot
    ensures Starves(s, steps, slot, n)
    decreases n
  {
    if n == 0 {
      steps := [];
    } else {
      var ring := HostRings(other, DoorbellType.Full, 1);
      var rung := After(s, ring);
      var chosen := RungScanSelects(rung, other);
      var scan := EngineScans(chosen, false);
      var rest := StarvingRun(After(rung, scan), slot, other, n - 1);
      StarvesLonger(rung, scan, rest, slot, n - 1);
      StarvesLonger(s, ring, [scan] + rest, slot, n);
      steps := [ring] + ([scan] + rest);
    }
  }

  /** Every legal run in which the host leaves the doorbell rung and the engine makes a round of
      other selections selects the slot. */
  ghost predicate ServedWithinOneRound(s: State, slot: nat)
    requires s.slot < |s.full|
  {
    forall steps :: LegalRun(s, steps) && HostKeeps(steps, slot) && OtherSelections(steps, slot) >= |s.full| ==>
      !NeverSelected(steps, slot)
  }

  lemma LostRingNotServed(s: State, slot: nat)
    requires SchedulerInv(s) && |s.full| >= 2 && slot < |s.full| && AboutToClear(s, slot)
    ensures !ServedWithinOneRound(s, slot)
  {
    var other := if slot == 0 then 1 else 0;
    var cleared := After(s, EngineClears);
    var scanning := After(cleared, EngineFinishes);
    var rest := StarvingRun(scanning, slot, other, |s.full|);
    StarvesLonger(cleared, EngineFinishes, rest, slot, |s.full|);
    StarvesLonger(s, EngineClears, [EngineFinishes] + rest, slot, |s.full|);
  }

  /** A ring is sure to be served within one round of the other slots exactly when it does not
      arrive between the read of its slot and the clearing of the doorbell. */
  lemma RingServedIff(s: State, slot: nat, value: U64)
    requires SchedulerInv(s) && |s.full| >= 2 && slot < |s.full| && value != 0
    ensures SchedulerInv(After(s, HostRings(slot, DoorbellType.Full, value)))
    ensures ServedWithinOneRound(After(s, HostRings(slot, DoorbellType.Full, value)), slot) <==>
            !AboutToClear(s, slot)
  {
    var rung := After(s, HostRings(slot, DoorbellType.Full, value));
    if AboutToClear(s, slot) {
      LostRingNotServed(rung, slot);
    } else {
      forall steps | LegalRun(rung, steps) && HostKeeps(steps, slot) && OtherSelections(steps, slot) >= |rung.full|
        ensures !NeverSelected(steps, slot)
      {
        SelectedWithinOneRound(rung, steps, slot);
      }
    }
  }

  // ----- Left alone, the engine finishes

  /** Selections of a slot along a run. */
  function SelectionsOf(steps: seq<Step>, slot: nat): nat {
    if steps == [] then 0
    else (if steps[0].EngineScans? && steps[0].chosen == slot then 1 else 0) + SelectionsOf(steps[1..], slot)
  }

  /** Without a new ring a slot is selected at most once, whether it has a buffer or not, and never
      once its doorbell is down. */
  lemma {:induction false} SelectedAtMostOnce(s: State, steps: seq<Step>, slot: nat)
    requires SchedulerInv(s) && LegalRun(s, steps) && HostSilent(steps, slot) && slot < |s.full|
    ensures SelectionsOf(steps, slot) <= 1
    ensures s.full[slot] == 0 || AboutToClear(s, slot) ==> SelectionsOf(steps, slot) == 0
    decreases |steps|
  {
    if steps != [] {
      StepKeepsWakeup(s, steps[0]);
      SelectedAtMostOnce(After(s, steps[0]), steps[1..], slot);
    }
  }

  /** How many full doorbells are rung. */
  function Rung(full: seq<U64>): nat {
    if full == [] then 0 else (if full[0] != 0 then 1 else 0) + Rung(full[1..])
  }

  lemma {:induction false} RungCleared(full: seq<U64>, slot: nat)
    requires slot < |full|
    ensures Rung(full[slot := 0]) == Rung(full) - (if full[slot] != 0 then 1 else 0)
    decreases |full|
  {
    var cleared := full[slot := 0];
    if slot > 0 {
      assert cleared[1..] == full[1..][slot - 1 := 0];
      RungCleared(full[1..], slot - 1);
    } else {
      assert cleared[1..] == full[1..];
    }
  }

  /** The host does nothing at all. */
  ghost predicate HostIdle(steps: seq<Step>) {
    forall k :: 0 <= k < |steps| ==> !steps[k].HostRings? && !steps[k].HostResets?
  }

  function Selections(steps: seq<Step>): nat {
    if steps == [] then 0 else (if steps[0].EngineScans? then 1 else 0) + Selections(steps[1..])
  }

  /** The slot in service was selected and its doorbell is still up. */
  predicate InService(s: State)
    requires s.slot < |s.full|
  {
    s.pc.Reading? && s.full[s.slot] != 0
  }

  /** A bound on the steps the engine can still take by itself. */
  function Work(s: State): nat
    requires s.slot < |s.full|
  {
    4 * Rung(s.full) + (if s.notified then 2 else 0)
    + match s.pc
      case Sleeping => 0
      case Scanning => 1
      case Finishing => 2
      case Reading => if InService(s) then 0 else 3
  }

  lemma OwnStepWorks(s: State, step: Step)
    requires SchedulerInv(s) && Enabled(s, step) && !step.HostRings? && !step.HostResets?
    ensures SchedulerInv(After(s, step)) && Work(After(s, step)) < Work(s)
    ensures var e := After(s, step);
            Rung(e.full) - (if InService(e) then 1 else 0) ==
            Rung(s.full) - (if InService(s) then 1 else 0) - (if step.EngineScans? then 1 else 0)
  {
    StepKeepsWakeup(s, step);
    hide Rung;
    if step.EngineScans? {
      RungCleared(s.full, step.chosen);
    } else if step.EngineClears? {
      RungCleared(s.full, s.slot);
    }
  }

  lemma {:induction false} LeftAloneSelects(s: State, steps: seq<Step>)
    requires SchedulerInv(s) && LegalRun(s, steps) && HostIdle(steps)
    ensures SchedulerInv(Run(s, steps)) && |steps| + Work(Run(s, steps)) <= Work(s)
    ensures var e := Run(s, steps);
            Rung(e.full) - (if InService(e) then 1 else 0) + Selections(steps) ==
            Rung(s.full) - (if InService(s) then 1 else 0)
    ensures InService(Run(s, steps)) ==> Rung(Run(s, steps).full) > 0
    decreases |steps|
  {
    hide Work, Rung, InService;
    if steps == [] {
      ServiceIsRung(s);
    } else {
      assert !steps[0].HostRings? && !steps[0].HostResets?;
      OwnStepWorks(s, steps[0]);
      LeftAloneSelects(After(s, steps[0]), steps[1..]);
    }
  }

  lemma ServiceIsRung(s: State)
    requires SchedulerInv(s)
    ensures InService(s) ==> Rung(s.full) > 0
  {
    RungCleared(s.full, s.slot);
  }

  /** Awake the engine can always go on. */
  lemma StuckMeansAsleep(s: State)
    requires SchedulerInv(s) && forall step :: Enabled(s, step) ==> step.HostRings? || step.HostResets?
    ensures s.pc.Sleeping? && NoneFull(s.full)
  {
    assert !Enabled(s, EngineClears) && !Enabled(s, EngineFinishes) && !Enabled(s, EventFires);
    if s.pc.Scanning? {
      assert !Enabled(s, EngineSleeps);
      var slot :| 0 <= slot < |s.full| && s.full[slot] != 0;
      var chosen := RungScanSelects(s, slot);
    }
  }

  lemma {:induction false} NoneRung(full: seq<U64>)
    requires NoneFull(full)
    ensures Rung(full) == 0
    decreases |full|
  {
    if full != [] {
      NoneRung(full[1..]);
    }
  }

  /** A run in which the host does nothing has at most one selection for each doorbell that is rung
      and boundedly many steps. Where the engine can take no more, it sleeps, none is rung, and
      every doorbell rung at the start was selected, but for one already in service then. */
  lemma LeftAloneFallsAsleep(s: State, steps: seq<Step>)
    requires SchedulerInv(s) && LegalRun(s, steps) && HostIdle(steps)
    ensures Selections(steps) <= Rung(s.full) && |steps| <= 4 * Rung(s.full) + 5
    ensures var e := Run(s, steps);
            (forall step :: Enabled(e, step) ==> step.HostRings? || step.HostResets?) ==>
              && e.pc.Sleeping? && NoneFull(e.full)
              && Selections(steps) == Rung(s.full) - (if s.pc.Reading? && s.full[s.slot] != 0 then 1 else 0)
  {
    LeftAloneSelects(s, steps);
    var e := Run(s, steps);
    if forall step :: Enabled(e, step) ==> step.HostRings? || step.HostResets? {
      StuckMeansAsleep(e);
      NoneRung(e.full);
    }
  }

  /** A reset of the engine takes every ring back, and changes nothing else. */
  lemma ResetTakesRingsBack(s: State)
    requires s.slot < |s.full|
    ensures Enabled(s, HostResets)
    ensures NoneFull(After(s, HostResets).full) && |After(s, HostResets).full| == |s.full|
    ensures After(s, HostResets).(full := s.full) == s
  {
  }

  // ----- The thread over the register map

  /** The DMA thread: each method runs it from one wait to the next. */
  class DmaThread {
    const engine: Engine
    var pc: Pc
    var slot: nat

    ghost predicate Valid()
      reads this, engine
    {
      engine.Valid() && slot < engine.slotCount
    }

    ghost function Snapshot(): State
      requires Valid()
      reads this, engine
    {
      State(engine.Full(), pc, slot, engine.notified)
    }

    constructor (engine: Engine)
      requires engine.Valid()
      ensures Valid() && this.engine == engine && pc == Scanning && slot == engine.slotCount - 1
    {
      this.engine := engine;
      pc, slot := Scanning, engine.slotCount - 1;
    }

    /** `configured` says whether the slot found has a buffer to read into. */
    method Scan(configured: bool) returns (ghost step: Step)
      requires Valid() && pc.Scanning?
      modifies this, engine
      ensures Valid() && step in {EngineScans(slot, configured), EngineSleeps}
      ensures Enabled(old(Snapshot()), step) && Snapshot() == After(old(Snapshot()), step)
    {
      var found, chosen, blocks := engine.FindNextFullDoorbell(slot, 0);
      if found {
        slot := chosen;
        if configured {
          pc := Reading;
        } else {
          engine.ClearFullDoorbell(slot);
        }
        step := EngineScans(chosen, configured);
      } else {
        pc := Sleeping;
        step := EngineSleeps;
      }
    }

    /** After the yield that follows the start of the read. */
    method Clear()
      requires Valid() && pc.Reading?
      modifies this, engine
      ensures Valid() && Snapshot() == After(old(Snapshot()), EngineClears)
    {
      engine.ClearFullDoorbell(slot);
      pc := Finishing;
    }

    /** After the yield that follows the write of the control word. */
    method Finish()
      requires Valid() && pc.Finishing?
      modifies this
      ensures Valid() && Snapshot() == After(old(Snapshot()), EngineFinishes)
    {
      pc := Scanning;
    }

    /** The host writes a doorbell while the thread is suspended. */
    method HostWrite(s: nat, t: DoorbellType, value: U64)
      requires Valid()
      modifies engine
      ensures Valid() && Snapshot() == After(old(Snapshot()), HostRings(s, t, value))
    {
      var accepted := engine.WriteDoorbellRegister(s, t, value);
    }
  }
}
