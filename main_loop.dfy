/** One pass of the bridge's main loop (loop() in src/main.cpp).

    The loop reads from the two links unless a firmware update is in
    progress, lets power management run, restarts the device once a
    scheduled reboot is due, and lets the update server poll. Every call the
    loop makes, except its queries of the update status and of
    Component.inRawMode(), is an event appended to a ghost trace: the link
    reads, delay(0), power management, the restart and the update-server
    poll, which are code this model does not contain, and the clearing of the reboot deadline, which the
    UpdateStatus module models. The contracts say which events happen and in
    what order. Whether the links run in raw mode is a parameter of a pass. */
module MainLoop {
  import opened UpdateStatus

  /** The two links the loop reads from. */
  datatype Link = Gcs | Vehicle

  /** A call the loop makes, as recorded in the trace. */
  datatype Event =
    | ReadMessage(link: Link, raw: bool) // readMessage / readMessageRaw
    | Yield                              // delay(0)
    | PowerLoop                          // Power.loop()
    | RebootCleared                      // updateStatus.clearScheduledReboot()
    | Restart                            // ESP.restart()
    | CheckUpdates                       // updateServer.checkUpdates()

  /** The link reads of a trace, in order. */
  function Reads(es: seq<Event>): seq<Event>
    decreases |es|
  {
    if es == [] then []
    else (if es[0].ReadMessage? then [es[0]] else []) + Reads(es[1..])
  }

  lemma {:induction false} ReadsAppend(a: seq<Event>, b: seq<Event>)
    ensures Reads(a + b) == Reads(a) + Reads(b)
    decreases |a|
  {
    if a == [] {
      assert a + b == b;
    } else {
      assert (a + b)[1..] == a[1..] + b;
      ReadsAppend(a[1..], b);
    }
  }

  /** The events of the read phase: nothing while updating, otherwise the
      ground-station read, a yield, the vehicle read and power management. */
  function ReadPhase(s: Status, rawMode: bool): seq<Event> {
    if s.IsUpdating() then []
    else [ReadMessage(Gcs, rawMode), Yield, ReadMessage(Vehicle, rawMode), PowerLoop]
  }

  /** The events of the reboot phase: clear the deadline, then restart,
      when a reboot is due. */
  function RebootPhase(s: Status, now: u32): seq<Event> {
    if s.ShouldReboot(now) then [RebootCleared, Restart] else []
  }

  /** The calls one pass of loop() makes, from the update status it starts
      with, the raw-mode flag and the clock. */
  function TickEvents(s: Status, rawMode: bool, now: u32): seq<Event> {
    ReadPhase(s, rawMode) + RebootPhase(s, now) + [CheckUpdates]
  }

  lemma ReadsOfOne(e: Event)
    ensures Reads([e]) == if e.ReadMessage? then [e] else []
  {
    assert [e][1..] == [];
  }

  /** The link reads of one pass: none while updating; otherwise exactly
      one ground-station read followed by exactly one vehicle read, both raw
      exactly in raw mode. Power management runs exactly when the links are
      read. */
  lemma TickReads(s: Status, rawMode: bool, now: u32)
    ensures s.IsUpdating() ==> Reads(TickEvents(s, rawMode, now)) == []
    ensures !s.IsUpdating() ==>
      Reads(TickEvents(s, rawMode, now)) == [ReadMessage(Gcs, rawMode), ReadMessage(Vehicle, rawMode)]
    ensures PowerLoop in TickEvents(s, rawMode, now) <==> !s.IsUpdating()
  {
    var read, reboot := ReadPhase(s, rawMode), RebootPhase(s, now);
    ReadsAppend(read, reboot);
    ReadsAppend(read + reboot, [CheckUpdates]);
    ReadsOfOne(CheckUpdates);
    RebootPhaseReads(s, now);
    ReadPhaseReads(s, rawMode);
  }

  lemma ReadPhaseReads(s: Status, rawMode: bool)
    ensures Reads(ReadPhase(s, rawMode)) ==
      if s.IsUpdating() then [] else [ReadMessage(Gcs, rawMode), ReadMessage(Vehicle, rawMode)]
  {
    if !s.IsUpdating() {
      var g, v := ReadMessage(Gcs, rawMode), ReadMessage(Vehicle, rawMode);
      assert ReadPhase(s, rawMode) == [g] + [Yield] + [v] + [PowerLoop];
      ReadsAppend([g] + [Yield] + [v], [PowerLoop]);
      ReadsAppend([g] + [Yield], [v]);
      ReadsAppend([g], [Yield]);
      ReadsOfOne(g);
      ReadsOfOne(Yield);
      ReadsOfOne(v);
      ReadsOfOne(PowerLoop);
    }
  }

  lemma RebootPhaseReads(s: Status, now: u32)
    ensures Reads(RebootPhase(s, now)) == []
  {
    if s.ShouldReboot(now) {
      ReadsAppend([RebootCleared], [Restart]);
      ReadsOfOne(RebootCleared);
      ReadsOfOne(Restart);
    }
  }

  /** The reboot check of one pass runs whether or not an update is in
      progress: the device restarts exactly when a reboot is due, and the
      deadline is cleared right before. */
  lemma TickReboot(s: Status, rawMode: bool, now: u32)
    ensures Restart in TickEvents(s, rawMode, now) <==> s.ShouldReboot(now)
    ensures RebootCleared in TickEvents(s, rawMode, now) <==> s.ShouldReboot(now)
    ensures var es := TickEvents(s, rawMode, now);
      forall i :: 0 <= i < |es| && es[i] == Restart ==> 0 < i && es[i - 1] == RebootCleared
  {
  }

  /** Each pass ends by polling the update server, once. */
  lemma TickChecksUpdatesLast(s: Status, rawMode: bool, now: u32)
    ensures var es := TickEvents(s, rawMode, now);
      es[|es| - 1] == CheckUpdates && CheckUpdates !in es[..|es| - 1]
  {
  }

  /** The update status after one pass: a due reboot has been cleared. */
  function TickStatus(s: Status, now: u32): (r: Status)
    ensures r.IsUpdating() == s.IsUpdating()
    ensures s.ShouldReboot(now) ==> !r.IsRebootPending()
    ensures !s.ShouldReboot(now) ==> r == s
    ensures forall t: u32 :: !r.ShouldReboot(t) || !s.ShouldReboot(now)
  {
    if s.ShouldReboot(now) then Cleared(s) else s
  }

  /** What happens between two passes: either one pass of loop(), or a call
      the update server makes on the update status (from inside
      checkUpdates). */
  datatype Step =
    | Tick(now: u32, rawMode: bool)
    | Server(op: UpdateOp)

  /** The status and the calls of a run of one boot. The run ends with the
      pass that calls ESP.restart(): the device restarts and the next boot
      starts over from setup() with a new status object. Steps after that
      pass are not executed. */
  function Exec(s: Status, steps: seq<Step>): (r: (Status, seq<Event>))
    ensures s.IsUpdating() ==> r.0.IsUpdating()
    decreases |steps|
  {
    if steps == [] then (s, [])
    else match steps[0]
      case Tick(now, rawMode) =>
        if s.ShouldReboot(now) then (TickStatus(s, now), TickEvents(s, rawMode, now))
        else
          var (s2, es2) := Exec(TickStatus(s, now), steps[1..]);
          (s2, TickEvents(s, rawMode, now) + es2)
      case Server(op) => Exec(Apply(s, op), steps[1..])
  }

  /** How many of `steps` the boot performs: all of them, or those up to and
      including the first pass that restarts the device. */
  function Performed(s: Status, steps: seq<Step>): (n: nat)
    ensures n <= |steps|
    ensures steps != [] ==> n > 0
    decreases |steps|
  {
    if steps == [] then 0
    else match steps[0]
      case Tick(now, _) =>
        if s.ShouldReboot(now) then 1 else 1 + Performed(TickStatus(s, now), steps[1..])
      case Server(op) => 1 + Performed(Apply(s, op), steps[1..])
  }

  /** A pass that restarts the device ends the boot: a pass scheduled after
      it runs in the next boot, not in this run. */
  lemma RestartEndsBoot()
    ensures Exec(Status(true, 5), [Tick(10, false), Tick(11, false)]).1
      == [RebootCleared, Restart, CheckUpdates]
    ensures Performed(Status(true, 5), [Tick(10, false), Tick(11, false)]) == 1
  {
  }

  /** The steps after the restarting pass play no part: the run of all the
      steps is the run of the steps the boot performs. */
  lemma {:induction false} ExecStopsAtPerformed(s: Status, steps: seq<Step>)
    ensures Exec(s, steps) == Exec(s, steps[..Performed(s, steps)])
    decreases |steps|
  {
    if steps != [] {
      var n := Performed(s, steps);
      var p := steps[..n];
      assert p[0] == steps[0];
      match steps[0]
      case Tick(now, rawMode) =>
        if !s.ShouldReboot(now) {
          var s1 := TickStatus(s, now);
          ExecStopsAtPerformed(s1, steps[1..]);
          assert p[1..] == steps[1..][..Performed(s1, steps[1..])];
        }
      case Server(op) =>
        ExecStopsAtPerformed(Apply(s, op), steps[1..]);
        assert p[1..] == steps[1..][..Performed(Apply(s, op), steps[1..])];
    }
  }

  /** `Restart` occurs in `es`, if at all, only as its second-to-last
      event, followed by the update-server poll. */
  predicate RestartOnlyLast(es: seq<Event>) {
    forall i :: 0 <= i < |es| && es[i] == Restart ==> i == |es| - 2 && es[i + 1] == CheckUpdates
  }

  /** A run restarts the device at most once, in its last pass: after
      ESP.restart() the only call of the boot is the update-server poll that
      ends that pass. */
  lemma {:induction false} RestartIsLastPass(s: Status, steps: seq<Step>)
    ensures RestartOnlyLast(Exec(s, steps).1)
    decreases |steps|
  {
    if steps != [] {
      match steps[0]
      case Tick(now, rawMode) =>
        var t := TickEvents(s, rawMode, now);
        if s.ShouldReboot(now) {
          var r := ReadPhase(s, rawMode);
          assert Restart !in r;
          assert t == r + [RebootCleared, Restart, CheckUpdates];
        } else {
          TickReboot(s, rawMode, now);
          var es2 := Exec(TickStatus(s, now), steps[1..]).1;
          RestartIsLastPass(TickStatus(s, now), steps[1..]);
          forall i | 0 <= i < |t + es2| && (t + es2)[i] == Restart
            ensures i == |t + es2| - 2 && (t + es2)[i + 1] == CheckUpdates
          {
            if i < |t| {
              assert false;
            }
            assert es2[i - |t|] == Restart;
          }
        }
      case Server(op) =>
        RestartIsLastPass(Apply(s, op), steps[1..]);
    }
  }

  /** A run that leaves steps unperformed has restarted the device. */
  lemma {:induction false} UnperformedStepsMeanRestart(s: Status, steps: seq<Step>)
    ensures Performed(s, steps) < |steps| ==> Restart in Exec(s, steps).1
    decreases |steps|
  {
    if steps != [] {
      match steps[0]
      case Tick(now, rawMode) =>
        TickReboot(s, rawMode, now);
        if !s.ShouldReboot(now) {
          var s1 := TickStatus(s, now);
          UnperformedStepsMeanRestart(s1, steps[1..]);
          var es2 := Exec(s1, steps[1..]).1;
          if Restart in es2 {
            var k :| 0 <= k < |es2| && es2[k] == Restart;
            assert (TickEvents(s, rawMode, now) + es2)[|TickEvents(s, rawMode, now)| + k] == Restart;
          }
        }
      case Server(op) =>
        UnperformedStepsMeanRestart(Apply(s, op), steps[1..]);
    }
  }

  /** Once an update has started, no later pass of the same boot reads from
      either link or runs power management: the flag is never cleared, so
      forwarding does not resume before a restart. */
  lemma {:induction false} NoReadsOnceUpdating(s: Status, steps: seq<Step>)
    requires s.IsUpdating()
    ensures Reads(Exec(s, steps).1) == []
    ensures PowerLoop !in Exec(s, steps).1
    decreases |steps|
  {
    if steps != [] {
      match steps[0]
      case Tick(now, rawMode) =>
        TickReads(s, rawMode, now);
        if !s.ShouldReboot(now) {
          NoReadsOnceUpdating(TickStatus(s, now), steps[1..]);
          ReadsAppend(TickEvents(s, rawMode, now), Exec(TickStatus(s, now), steps[1..]).1);
        }
      case Server(op) =>
        NoReadsOnceUpdating(Apply(s, op), steps[1..]);
    }
  }

  /** The link reads that passes make when no update is in progress:
      per pass, one ground-station read and then one vehicle read, both raw
      exactly when the pass runs in raw mode. */
  function ExpectedReads(steps: seq<Step>): seq<Event>
    decreases |steps|
  {
    if steps == [] then []
    else
      (match steps[0]
        case Tick(_, rawMode) => [ReadMessage(Gcs, rawMode), ReadMessage(Vehicle, rawMode)]
        case Server(_) => [])
      + ExpectedReads(steps[1..])
  }

  /** Without updateStarted, the link reads of a boot are those of the
      steps it performs: per pass, one ground-station read and then one
      vehicle read, in pass order. */
  lemma {:induction false} ReadsWithoutUpdate(s: Status, steps: seq<Step>)
    requires !s.IsUpdating()
    requires Server(UpdateStarted) !in steps
    ensures Reads(Exec(s, steps).1) == ExpectedReads(steps[..Performed(s, steps)])
    decreases |steps|
  {
    if steps != [] {
      assert steps == [steps[0]] + steps[1..];
      var n := Performed(s, steps);
      match steps[0]
      case Tick(now, rawMode) =>
        TickReads(s, rawMode, now);
        if s.ShouldReboot(now) {
          assert steps[..n] == [steps[0]];
          assert steps[..n][1..] == [];
        } else {
          var s1 := TickStatus(s, now);
          ReadsWithoutUpdate(s1, steps[1..]);
          ReadsAppend(TickEvents(s, rawMode, now), Exec(s1, steps[1..]).1);
          assert steps[..n][1..] == steps[1..][..Performed(s1, steps[1..])];
        }
      case Server(op) =>
        ReadsWithoutUpdate(Apply(s, op), steps[1..]);
        assert steps[..n][1..] == steps[1..][..Performed(Apply(s, op), steps[1..])];
    }
  }

  /** The program's global state that loop() works on: the update status
      object, and the trace of calls made so far. */
  class Firmware {
    const updateStatus: UpdateStatusImp
    ghost var trace: seq<Event>

    constructor (updateStatus: UpdateStatusImp)
      ensures this.updateStatus == updateStatus && trace == []
    {
      this.updateStatus := updateStatus;
      trace := [];
    }

    /** Records one call the loop makes in the trace. */
    method Perform(e: Event)
      modifies this
      ensures trace == old(trace) + [e]
    {
      trace := trace + [e];
    }

    /** One pass of loop(). `rawMode` is what Component.inRawMode() reports
        and `now` is the clock. */
    method Loop(now: u32, rawMode: bool)
      modifies this, updateStatus
      ensures trace == old(trace) + TickEvents(old(updateStatus.Snapshot()), rawMode, now)
      ensures updateStatus.Snapshot() == TickStatus(old(updateStatus.Snapshot()), now)
    {
      ghost var s0, t0 := updateStatus.Snapshot(), trace;
      if !updateStatus.IsUpdating() {
        if rawMode {
          Perform(ReadMessage(Gcs, true));
          Perform(Yield);
          Perform(ReadMessage(Vehicle, true));
        } else {
          Perform(ReadMessage(Gcs, false));
          Perform(Yield);
          Perform(ReadMessage(Vehicle, false));
        }
        Perform(PowerLoop);
      }
      assert trace == t0 + ReadPhase(s0, rawMode);
      assert updateStatus.Snapshot() == s0;
      if updateStatus.ShouldReboot(now) {
        updateStatus.ClearScheduledReboot();
        Perform(RebootCleared);
        Perform(Restart);
      }
      assert trace == t0 + ReadPhase(s0, rawMode) + RebootPhase(s0, now);
      Perform(CheckUpdates);
    }
  }
}
