# mavesp8266 main program: update status, broadcast address, loop gating

The mavesp8266 firmware bridges MAVLink between a flight controller's serial
port and UDP over WiFi, on an ESP8266. This project models the logic of its
main program, `src/main.cpp`, in three modules:

- `UpdateStatus` (`update_status.dfy`) models the firmware-update status
  object `MavESP8266UpdateImp`. It has two fields: an "updating" flag and a
  32-bit reboot deadline in milliseconds, where 0 means "no reboot
  scheduled". The class `UpdateStatusImp` keeps the real fields and methods
  that update them in place. The datatype `Status` is the object's abstract
  value. Functions on `Status` give the effect of each call, and lemmas state
  what a call or a sequence of calls guarantees. `millis()` is a parameter
  `now`. The deadline sum wraps modulo 2^32 (`u32`, `WrapAdd`).
- `Broadcast` (`broadcast.dfy`) models the part of `setup()` that computes
  the arguments of the two links' `begin` calls. The ground-station link's
  first target is the directed broadcast address of the local subnet
  (RFC 922, section 7): each octet keeps the network bits of the local
  address and sets every host bit. Octets are `bv8`, and the loop rewrites a
  4-octet array in place. The vehicle link is started with
  `Vehicle.begin(&GCS, localIP[3])`. Its declared parameters are
  `(forwardTo, IPAddress ownIP, uint8_t system_id = 0, uint8_t component_id = 0)`
  (src/mavesp8266_vehicle.h:47). So the last local octet becomes `ownIP`,
  through IPAddress's integer constructor, and the system id is 0
  (`VehicleBeginArgs`). The comment above the call says the octet is meant
  as the system id; see "## Findings".
- `MainLoop` (`main_loop.dfy`) models one pass of `loop()`. Every call the
  pass makes, except its queries of the update status and of
  `Component.inRawMode()`, is an `Event` appended to a ghost trace:
  - a link read (`readMessage` or `readMessageRaw`)
  - `delay(0)`
  - `Power.loop()`
  - `clearScheduledReboot()`, which `UpdateStatus` models
  - `ESP.restart()`
  - `updateServer.checkUpdates()`

  `Component.inRawMode()` is not an event. Its answer is the `rawMode`
  parameter of a pass.
  - `TickEvents` gives the trace of one pass, and the lemmas state which
    events happen and in what order.
  - `Exec` strings passes together with calls that the update server makes
    on the status object. A run covers one boot: it ends with the pass that
    calls `ESP.restart()` (`ExecStopsAtPerformed`, `RestartIsLastPass`,
    `UnperformedStepsMeanRestart`).
  - `NoReadsOnceUpdating` and `ReadsWithoutUpdate` state what such runs read.

Facts about the source that the model records:

- `updateCompleted` and `updateError` are empty TODOs (src/main.cpp:72-79),
  so nothing resets the updating flag. Once an update starts, the links are
  not read again for the rest of the boot (`RunUpdating`,
  `NoReadsOnceUpdating`).
- Each pass reads the ground-station link before the vehicle link
  (src/main.cpp:255-262).

Three consequences of the 32-bit deadline, proved about the code as written:

- If `millis() + delayMs` overflows to a non-zero value, the reboot is due
  at once (`WrappedDeadlineIsDueAtOnce`).
- If the sum wraps to exactly 0, the reboot is not pending and never
  happens (`DeadlineWrappingToZeroIsLost`).
- A deadline of 2^32 - 1 is pending but never due
  (`LastDeadlineNeverDue`).

## Model

| member | source | states |
|---|---|---|
| `UpdateStatus.WrapAdd` | src/main.cpp:66 | the uint32_t sum is the mathematical sum when it fits in 32 bits and the sum less 2^32 when it does not |
| `UpdateStatus.Status.ShouldReboot` | src/main.cpp:82 | a due reboot implies the clock is not at the deadline (the comparison is strict) and not at 0 |
| `UpdateStatus.Initial` | src/main.cpp:54-59 | a new status object is not updating and has no reboot pending, so shouldReboot is false at every clock value |
| `UpdateStatus.Cleared` | src/main.cpp:60-63 | after clearScheduledReboot no reboot is pending and shouldReboot is false at every clock value; the updating flag is unchanged |
| `UpdateStatus.Scheduled` | src/main.cpp:64-67 | scheduleReboot(d) at clock t sets the deadline to t + d, less 2^32 if the sum overflows; a reboot is pending exactly when t + d is neither 0 nor 2^32; the updating flag is unchanged |
| `UpdateStatus.Started` | src/main.cpp:68-71 | updateStarted sets the updating flag and leaves the deadline and whether a reboot is pending unchanged |
| `UpdateStatus.Apply` | src/main.cpp:60-79 | after any one call the object is updating exactly when it was before or the call is updateStarted; updateCompleted and updateError change nothing; only clearing and scheduling touch the deadline |
| `UpdateStatus.RunUpdating` | src/main.cpp:68-81 | after any sequence of calls the object is updating exactly when it was before or the sequence contains updateStarted, so the flag never returns to false |
| `UpdateStatus.RunKeepsDeadline` | src/main.cpp:60-80 | a call sequence with no clearScheduledReboot and no scheduleReboot leaves the deadline unchanged |
| `UpdateStatus.RebootStrictlyAfterDeadline` | src/main.cpp:80-82 | with a reboot pending at a deadline below 2^32 - 1, shouldReboot is false at the deadline itself and true one millisecond later |
| `UpdateStatus.WrappedDeadlineIsDueAtOnce` | src/main.cpp:64-82 | whenever clock + delay exceeds 2^32, the wrapped deadline is already due at the clock value it was scheduled at |
| `UpdateStatus.DeadlineWrappingToZeroIsLost` | src/main.cpp:64-82 | whenever clock + delay is exactly 2^32, no reboot is pending and shouldReboot is false at every clock value |
| `UpdateStatus.LastDeadlineNeverDue` | src/main.cpp:80-82 | a deadline of 2^32 - 1 is pending, yet shouldReboot is false at every clock value |
| `UpdateStatus.UpdateStatusImp.constructor` | src/main.cpp:54-59 | the constructor gives the initial status: not updating, no deadline |
| `UpdateStatus.UpdateStatusImp.ClearScheduledReboot` | src/main.cpp:60-63 | the fields become those of `Cleared` of the old fields |
| `UpdateStatus.UpdateStatusImp.ScheduleReboot` | src/main.cpp:64-67 | the fields become those of `Scheduled` of the old fields, the clock and the delay |
| `UpdateStatus.UpdateStatusImp.UpdateStarted` | src/main.cpp:68-71 | the fields become those of `Started` of the old fields |
| `UpdateStatus.UpdateStatusImp.UpdateCompleted` | src/main.cpp:72-75 | the fields do not change |
| `UpdateStatus.UpdateStatusImp.UpdateError` | src/main.cpp:76-79 | the fields do not change |
| `UpdateStatus.UpdateStatusImp.IsRebootPending` | src/main.cpp:80 | isRebootPending holds exactly when the deadline field is not 0 |
| `UpdateStatus.UpdateStatusImp.IsUpdating` | src/main.cpp:81 | isUpdating reports the updating field |
| `UpdateStatus.UpdateStatusImp.ShouldReboot` | src/main.cpp:82 | shouldReboot(now) holds exactly when the deadline field is not 0 and the clock is strictly greater than it |
| `UpdateStatus.Status.IsRebootPending` | src/main.cpp:80 | the abstract form of isRebootPending: the deadline is not the "none" value 0 |
| `UpdateStatus.Status.IsUpdating` | src/main.cpp:81 | the abstract form of isUpdating: the updating flag |
| `Broadcast.BroadcastOctet` | src/main.cpp:239 | the derived octet keeps the network bits of the local octet (b & mask == ip & mask) and has every host bit set (b \| mask == 0xFF) |
| `Broadcast.BroadcastOctetUnique` | src/main.cpp:239 | any octet with the local network bits and all host bits set is the one the formula computes |
| `Broadcast.BroadcastOctetIdempotent` | src/main.cpp:239 | applying the formula to its own result changes nothing |
| `Broadcast.SubnetBroadcast` | src/main.cpp:237-240 | the octet-by-octet formula gives an address with the local network part and all host bits set |
| `Broadcast.SubnetBroadcastUnique` | src/main.cpp:237-240 | exactly one address has the local network part and all host bits set: an address has them if and only if it is `SubnetBroadcast` of the local address and mask |
| `Broadcast.ToSubnetBroadcast` | src/main.cpp:238-240 | the loop replaces each of the four octets, in place, by the formula applied to that octet and the matching mask octet |
| `Broadcast.LinkIdentities` | src/main.cpp:236-244 | the ground-station link starts with the subnet broadcast address of the local address (`SubnetBroadcast`); the vehicle link gets the last local octet as its ownIP argument, with system id and component id 0 |
| `Broadcast.VehicleBeginArgs` | src/main.cpp:244 | as written, the vehicle begin call passes the last local octet (0-255) as the integer for ownIP and leaves system id and component id at their default 0 |
| `Broadcast.IntendedVehicleBeginArgs` | src/main.cpp:243-244 | the call the comment describes has the last local octet as system id and differs from the call as written only there, and only when that octet is not 0 |
| `Broadcast.SystemIdIsNotLastOctet` | src/main.cpp:243-244 | for local address 192.168.4.7 the call as written gives system id 0 where the comment intends 7 |
| `Broadcast.AccessPointBroadcast` | src/main.cpp:217-240 | with the access-point mask 255.255.255.0 the broadcast address is the local address with its last octet set to 255 |
| `MainLoop.TickReads` | src/main.cpp:252-265 | while updating, a pass reads neither link and skips power management; otherwise it reads the ground-station link once and then the vehicle link once, both raw exactly in raw mode, and runs power management |
| `MainLoop.TickReboot` | src/main.cpp:266-269 | whatever the updating flag, a pass restarts exactly when a reboot is due, and clears the deadline immediately before restarting |
| `MainLoop.TickChecksUpdatesLast` | src/main.cpp:270 | every pass polls the update server exactly once, as its last call |
| `MainLoop.TickEvents` | src/main.cpp:252-271 | the calls of one pass: the read phase unless updating, the clear-and-restart phase when a reboot is due, then the update-server poll |
| `MainLoop.TickStatus` | src/main.cpp:266-267 | a pass keeps the updating flag; after a due reboot no reboot is pending; otherwise the status is unchanged |
| `MainLoop.Exec` | src/main.cpp:252-271 | a run of one boot, passes and update-server calls in order: a run that starts updating ends updating (where the run stops is stated by `ExecStopsAtPerformed`, `RestartIsLastPass` and `UnperformedStepsMeanRestart`) |
| `MainLoop.Performed` | src/main.cpp:266-269 | the number of steps a boot performs: at most all of them, and at least one when there is one |
| `MainLoop.ExecStopsAtPerformed` | src/main.cpp:266-269 | the run of all the steps equals the run of the first `Performed` of them: no step after the restarting pass changes the status or the calls |
| `MainLoop.RestartIsLastPass` | src/main.cpp:266-270 | in every run, `ESP.restart()` occurs at most once and only as the second-to-last call, followed only by the update-server poll of the same pass |
| `MainLoop.UnperformedStepsMeanRestart` | src/main.cpp:266-269 | a run that leaves steps unperformed contains `ESP.restart()` |
| `MainLoop.RestartEndsBoot` | src/main.cpp:266-269 | one example: from status (updating, deadline 5), passes at clock 10 and 11 give only the first pass's calls (clear, restart, poll), and one performed step |
| `MainLoop.NoReadsOnceUpdating` | src/main.cpp:252-265 | from an updating state, no pass of the same boot reads a link or runs power management, whatever update-server calls come between |
| `MainLoop.ReadsWithoutUpdate` | src/main.cpp:252-263 | from a non-updating state, with no updateStarted among the server calls, the link reads of a boot are one ground-station read then one vehicle read per performed pass, in pass order, raw as each pass's mode says |
| `MainLoop.Firmware.Loop` | src/main.cpp:252-271 | one pass appends exactly the calls of `TickEvents` to the trace and leaves the status that `TickStatus` gives |

## Findings

| source | as written | input that shows it | evidently intended | confidence | as-written member | corrected member |
|---|---|---|---|---|---|---|
| src/main.cpp:243-244 | `Vehicle.begin(&GCS, localIP[3])` binds the octet to `ownIP` (src/mavesp8266_vehicle.h:47); `system_id` defaults to 0 | local address 192.168.4.7: system id 0 | system id 7, the last octet, as the comment above the call says | medium, not executed; the vehicle link's begin is not part of this model, so what it does with a 0 system id is not known here | `Broadcast.VehicleBeginArgs` (with `Broadcast.SystemIdIsNotLastOctet`) | `Broadcast.IntendedVehicleBeginArgs` |

`LinkIdentities` keeps the call as written. Nothing else in the model depends on the vehicle's system id.

## Left out

- The vehicle and ground-station links (MAVLink parsing and resync, heartbeat faking, armed-state extraction, send queues, peer locking): their code is not part of this model. `src/mavesp8266_vehicle.h` only declares them. In the loop they are opaque read events.
- `Power.loop()`, `ESP.restart()`, `updateServer.checkUpdates()` and `delay(0)`: foreign calls, modelled as trace events. Within the restarting pass, the model records the `checkUpdates` call that follows `ESP.restart()` in the code. A run (`Exec`) ends with that pass. The next boot (`setup()` again, with a new status object) is not modelled.
- `Component.inRawMode()`: foreign; its answer is the `rawMode` parameter of a pass.
- The update server's own logic, which decides when to call `updateStarted`, `scheduleReboot` and the rest: not part of this model. `Exec` accepts those calls in any order.
- `millis()`: the clock is a parameter, not a device counter.
- WiFi set-up (station mode with fall-back to access-point mode), `wait_for_client` polling, mDNS registration, the output-power setting, logger, parameter storage and power-pin set-up in `setup()` (src/main.cpp:153-235): radio, storage and vendor-SDK I/O. `LinkIdentities` takes the local address and mask that set-up produces as inputs.
- `reset_interrupt` (src/main.cpp:145-149): interrupt-driven factory reset, and its attachment is commented out in the source.
- The global singletons and the `MavESP8266WorldImp` accessors (src/main.cpp:90-119): plumbing with no logic.
- The `begin` calls of the two links and of the update server: modelled only through the arguments setup() passes them (`LinkIdentities`). How IPAddress's integer constructor lays the value out in octets depends on the platform's byte order. That class is not part of this model, so `ownIp` is kept as the integer passed.
- `etc/scripts/prebuild.py`: a build script with no program logic.
