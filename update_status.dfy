/** The firmware-update status object of the bridge's main program
    (class MavESP8266UpdateImp in src/main.cpp).

    It holds two fields: whether a firmware update has started, and a
    reboot deadline in milliseconds, where 0 means "no reboot scheduled".
    The deadline is a 32-bit unsigned value, so it is modelled as a
    `u32` and the sum that sets it wraps modulo 2^32. The millisecond clock
    (`millis()`, itself a 32-bit counter) is not read from the device but
    passed in as `now`. */
module UpdateStatus {

  const TwoTo32: int := 0x1_0000_0000

  /** A C `uint32_t`. */
  newtype u32 = x: int | 0 <= x < 0x1_0000_0000

  /** uint32_t addition: the mathematical sum, less 2^32 when it does not
      fit in 32 bits. */
  function WrapAdd(a: u32, b: u32): (r: u32)
    ensures a as int + b as int < TwoTo32 ==> r as int == a as int + b as int
    ensures a as int + b as int >= TwoTo32 ==> r as int == a as int + b as int - TwoTo32
  {
    ((a as int + b as int) % TwoTo32) as u32
  }

  /** The abstract value of an update-status object: its two fields. */
  datatype Status = Status(updating: bool, rebootAt: u32)
  {
    /** A reboot is pending when the deadline is not the "none" value 0. */
    predicate IsRebootPending() {
      rebootAt != 0
    }

    predicate IsUpdating() {
      updating
    }

    /** A reboot is due once a pending deadline has been passed strictly,
        comparing the clock and the deadline as unsigned 32-bit numbers. */
    predicate ShouldReboot(now: u32)
      ensures ShouldReboot(now) ==> now != rebootAt && now != 0
    {
      IsRebootPending() && now > rebootAt
    }
  }

  /** The state of a freshly constructed object. */
  function Initial(): (s: Status)
    ensures !s.IsUpdating() && !s.IsRebootPending()
    ensures forall now: u32 :: !s.ShouldReboot(now)
  {
    Status(false, 0)
  }

  /** clearScheduledReboot: forget the deadline, keep the updating flag. */
  function Cleared(s: Status): (r: Status)
    ensures r.IsUpdating() == s.IsUpdating()
    ensures !r.IsRebootPending()
    ensures forall now: u32 :: !r.ShouldReboot(now)
  {
    s.(rebootAt := 0)
  }

  /** scheduleReboot(delayMs) at clock value `now`: the deadline becomes
      now + delayMs modulo 2^32. A sum that wraps to exactly 0 reads back as
      "no reboot pending". */
  function Scheduled(s: Status, now: u32, delayMs: u32): (r: Status)
    ensures r.IsUpdating() == s.IsUpdating()
    ensures now as int + delayMs as int < TwoTo32 ==> r.rebootAt as int == now as int + delayMs as int
    ensures now as int + delayMs as int >= TwoTo32 ==> r.rebootAt as int == now as int + delayMs as int - TwoTo32
    ensures r.IsRebootPending() <==> now as int + delayMs as int != 0 && now as int + delayMs as int != TwoTo32
  {
    s.(rebootAt := WrapAdd(now, delayMs))
  }

  /** updateStarted: raise the updating flag, keep the deadline. */
  function Started(s: Status): (r: Status)
    ensures r.IsUpdating()
    ensures r.rebootAt == s.rebootAt
    ensures r.IsRebootPending() == s.IsRebootPending()
  {
    s.(updating := true)
  }

  /** The calls the update server can make on the object. */
  datatype UpdateOp =
    | ClearScheduledReboot
    | ScheduleReboot(now: u32, delayMs: u32)
    | UpdateStarted
    | UpdateCompleted
    | UpdateError

  /** The effect of one call. updateCompleted and updateError have empty
      bodies in the source, so they change nothing. */
  function Apply(s: Status, op: UpdateOp): (r: Status)
    ensures r.IsUpdating() <==> s.IsUpdating() || op == UpdateStarted
    ensures op == UpdateCompleted || op == UpdateError ==> r == s
    ensures !op.ClearScheduledReboot? && !op.ScheduleReboot? ==> r.rebootAt == s.rebootAt
  {
    match op
    case ClearScheduledReboot => Cleared(s)
    case ScheduleReboot(now, delayMs) => Scheduled(s, now, delayMs)
    case UpdateStarted => Started(s)
    case UpdateCompleted => s
    case UpdateError => s
  }

  /** The effect of a sequence of calls, in order. */
  function Run(s: Status, ops: seq<UpdateOp>): Status
    decreases |ops|
  {
    if ops == [] then s else Run(Apply(s, ops[0]), ops[1..])
  }

  /** Once an update has started the flag never returns to false: no call
      sequence clears it, and it is set after a sequence exactly when it
      was set before or the sequence contains updateStarted. */
  lemma {:induction false} RunUpdating(s: Status, ops: seq<UpdateOp>)
    ensures Run(s, ops).IsUpdating() <==> s.IsUpdating() || UpdateStarted in ops
    decreases |ops|
  {
    if ops != [] {
      RunUpdating(Apply(s, ops[0]), ops[1..]);
      assert ops == [ops[0]] + ops[1..];
    }
  }

  /** A call sequence that neither clears nor schedules leaves the reboot
      deadline as it was. */
  lemma {:induction false} RunKeepsDeadline(s: Status, ops: seq<UpdateOp>)
    requires forall i :: 0 <= i < |ops| ==> !ops[i].ClearScheduledReboot? && !ops[i].ScheduleReboot?
    ensures Run(s, ops).rebootAt == s.rebootAt
    decreases |ops|
  {
    if ops != [] {
      RunKeepsDeadline(Apply(s, ops[0]), ops[1..]);
    }
  }

  /** shouldReboot is false at the deadline itself and true one
      millisecond later (when that does not wrap past 2^32 - 1). */
  lemma RebootStrictlyAfterDeadline(s: Status)
    requires s.IsRebootPending() && s.rebootAt != 0xFFFF_FFFF
    ensures !s.ShouldReboot(s.rebootAt)
    ensures s.ShouldReboot(s.rebootAt + 1)
  {
  }

  /** As written, a deadline that wraps past 2^32 is compared with the
      unwrapped clock: whenever the sum overflows to a non-zero value, the
      reboot is due at the very clock value it was scheduled at. */
  lemma WrappedDeadlineIsDueAtOnce(s: Status, now: u32, delayMs: u32)
    requires now as int + delayMs as int > TwoTo32
    ensures Scheduled(s, now, delayMs).ShouldReboot(now)
  {
  }

  /** As written, scheduling a reboot whose deadline wraps to exactly 0
      leaves no reboot pending, so it never happens. */
  lemma DeadlineWrappingToZeroIsLost(s: Status, now: u32, delayMs: u32)
    requires now as int + delayMs as int == TwoTo32
    ensures !Scheduled(s, now, delayMs).IsRebootPending()
    ensures forall t: u32 :: !Scheduled(s, now, delayMs).ShouldReboot(t)
  {
  }

  /** As written, a deadline of 2^32 - 1 is pending but never due: no 32-bit
      clock value exceeds it. */
  lemma LastDeadlineNeverDue(s: Status)
    requires s.rebootAt == 0xFFFF_FFFF
    ensures s.IsRebootPending()
    ensures forall t: u32 :: !s.ShouldReboot(t)
  {
  }

  /** MavESP8266UpdateImp itself: the two fields the source updates in place. */
  class UpdateStatusImp {
    var isUpdating: bool
    var rebootAt: u32

    /** The abstract value of the object. */
    function Snapshot(): Status
      reads this
    {
      Status(isUpdating, rebootAt)
    }

    constructor ()
      ensures Snapshot() == Initial()
    {
      isUpdating := false;
      rebootAt := 0;
    }

    method ClearScheduledReboot()
      modifies this
      ensures Snapshot() == Cleared(old(Snapshot()))
    {
      rebootAt := 0;
    }

    method ScheduleReboot(now: u32, delayMs: u32)
      modifies this
      ensures Snapshot() == Scheduled(old(Snapshot()), now, delayMs)
    {
      rebootAt := WrapAdd(now, delayMs);
    }

    method UpdateStarted()
      modifies this
      ensures Snapshot() == Started(old(Snapshot()))
    {
      isUpdating := true;
    }

    /** Empty in the source (a TODO): changes nothing. */
    method UpdateCompleted()
      ensures Snapshot() == Apply(old(Snapshot()), UpdateOp.UpdateCompleted)
    {
    }

    /** Empty in the source (a TODO): changes nothing. */
    method UpdateError()
      ensures Snapshot() == Apply(old(Snapshot()), UpdateOp.UpdateError)
    {
    }

    predicate IsRebootPending()
      reads this
      ensures IsRebootPending() <==> rebootAt != 0
    {
      Snapshot().IsRebootPending()
    }

    predicate IsUpdating()
      reads this
      ensures IsUpdating() <==> isUpdating
    {
      Snapshot().IsUpdating()
    }

    predicate ShouldReboot(now: u32)
      reads this
      ensures ShouldReboot(now) <==> rebootAt != 0 && now > rebootAt
    {
      Snapshot().ShouldReboot(now)
    }
  }
}
