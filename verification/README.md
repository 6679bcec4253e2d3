# Dafny model of MultiMove

MultiMove lets one keyboard and mouse control several Windows machines. This project models the parts of
it, and of the WTL headers it carries, in which state, arithmetic or concurrency is hardest to get right,
and proves what they keep.

| files | what they model |
|---|---|
| Decimals.dfy | comparing two DECIMAL values (section 2.2.26 of [MS-OAUT]) by rescaling limbs, against the order of the rationals |
| ClientHook.dfy, HookRuns.dfy, HookCalls.dfy, HookMovement.dfy | the client's input hook: the STOP/NORMAL/REMOTE machine, every interleaving of the hook thread with other threads, its unlocked reads, and what becomes of the pointer movement |
| ServerSession.dfy, ServerRuns.dfy, ServerRounds.dfy, ServerStop.dfy | the server's session life: locked regions with their `goto` exits, its timer, every interleaving of the main, I/O and window threads, stopping and starting twice |
| Transfer.dfy | sending and receiving a whole buffer in chunks under a time budget |
| Ipv4.dfy | the address increment and comparison |
| GrowableString.dfy | the growable wide string |
| ButtonSearch.dfy | the command bar's cyclic button searches |
| MenuConversion.dfy, MenuRestoration.dfy, MenuTracking.dfy | turning menus into owner-draw menus while they are tracked, and back |
| TabView.dfy | the tab view's page list and active page |
| SortColumns.dfy | the sortable list view's columns, sort column mark and item sort |
| Options.dfy, Widths.dfy, Sequences.dfy | the option type, machine integers, operations on sequences |

Code that updates state is a class or a method with the same loops, early exits and branches. Each method is
proved against a function on values (its `ensures` gives the whole new state), and the main results are
lemmas about those functions: over all inputs, all sequences of operations, or all interleavings of steps.
In the two concurrent parts a step is one region executed under the lock, or one unlocked access; a run is
any sequence of enabled steps of any thread. Machine widths are written out where they matter: 32-bit limbs
and 64-bit products, 64-bit clocks, 16-bit ports and mouse data, byte-sized scales, key codes and octets.

`dafny verify dfyconfig.toml` checks the project.

## Where the code does less than its names or comments promise

The model follows the code. Each of these has a lemma with a run that shows it, or an if-and-only-if that
says when it happens.

- `Hook_Cli_RegisterHandler` returns true for a slot that was taken (ClientHook.Hook.RegisterHandler).
- A callback that read REMOTE before a control return still delivers one message after it, and a handler
  unregistered between check and call is called through a null pointer (HookRuns.AStaleMessageCanFollow,
  HookCalls.NullCallIffUnregisteredMeanwhile, HookCalls.ANullCallCanHappen).
- The call reads handler and context one after the other without the lock, so an unregistration in between passes NULL or
  another registration's context (HookCalls.RegisteredPairIff, HookCalls.AContextCanBeAnothers).
- A call of the hook's functions that overlaps a stop can lock a mutex that is gone (HookCalls.LateCallLocksALiveMutexIff).
- A remote move whose handler is unregistered before the check or the handler read is lost, and then the forwarded
  deltas no longer add up (HookMovement.RemoteMoveIsLostIff, HookMovement.MovementCanBeLost); the anchor after a
  screen-edge hit past the border is not where the requested warp leads (HookRuns.AnchorIsWarpTargetIffOnTheBorder).
- Between a failed callback and the close, a clipboard notification can still use the session
  (ServerRuns.OnlyCloseFollowsIffNoNotification, ServerRuns.AFailedSessionCanStillBeUsed).
- A second `Srv_Start` on a running server that gets a port destroys the server's mutex and drops its session
  pointer (ServerStop.SoundIffNoStartGetsAPort, ServerStop.ASecondStartBreaksTheServer).
- The port scan up to 65535 wraps and does not end by its bound, and a failing `listen` does not stop the start
  (ServerSession.ScanOfTakenPortsEndsIff, ServerSession.Server.Start).
- A timeout of 2^31 seconds or more is not the one select gets (Transfer.TimevalIsTimeoutIff).
- Clearing a string and appending a character can expose old characters (GrowableString.AppendCharTerminatesIff).
- The button searches can run for ever from the first or last button (ButtonSearch.SearchEndsIff).
- Converted menu items lose item data of their own and text beyond 99 characters, and on an attached bar, while
  tracking too, the closing of a menu zeroes the state of every converted item, because that cleanup never copies the
  saved state (MenuRestoration.ItemUnchangedIff, MenuTracking.StateIsLostIff).
- Inserting a tab page at or before the active one, or moving another page across it, hides the wrong window
  (TabView.OnlyActiveShownIffTidy).
- With common controls 6 a column that brought its own sort arrow loses it once it has been the sort column
  (SortColumns.LookSurvivesSortingIff).

## Model

| member | source | states |
|---|---|---|
| Decimals.VarDecCmp | library/WTL/Include/atlctrlx.h:3380-3481 | For every pair of decimals (any sign byte, 96-bit mantissa, byte scale) it ends and answers exactly as the rationals ±m/10^scale compare, signed zeros and equal values at different scales included; a null operand gives VARCMP_NULL. |
| Decimals.CrossOrderIsValueOrder | library/WTL/Include/atlctrlx.h:3380-3481 | The integer cross product used as the reference agrees in all three outcomes with the order of the real numbers ±m/10^scale. |
| Decimals.RescaleRound | library/WTL/Include/atlctrlx.h:3448-3470 | A round either multiplies the mantissa exactly by 10^k and moves the scale by k, or reports overflow exactly when the product reaches 2^96, leaving scale and high limb as they were. |
| Decimals.LimbProduct | library/WTL/Include/atlctrlx.h:3457-3464 | A limb times a power plus a carry never overflows 64 bits, and the carry out of it fits 32. |
| Decimals.MultiplyLimb | library/WTL/Include/atlctrlx.h:3457-3462 | Low word and carry together are the exact product plus the incoming carry. |
| Decimals.MantissaTimes | library/WTL/Include/atlctrlx.h:3456-3468 | The three limb steps together are the whole mantissa product, and the last carry is nonzero exactly when it needs more than 96 bits. |
| Decimals.TableHoldsPowers | library/WTL/Include/atlctrlx.h:3382-3394 | Entry k-1 of the table is 10^k, for every index a round can use. |
| Decimals.OverflowDecides | library/WTL/Include/atlctrlx.h:3464-3475 | Once a round overflows, the smaller-scale operand is the larger number at the common scale, so forcing the comparison to 1 is the true order. |
| Decimals.EarlyStopDecides | library/WTL/Include/atlctrlx.h:3445-3475 | Leaving the loop before the scales meet decides the order as well. |
| Decimals.SameSignOrder | library/WTL/Include/atlctrlx.h:3429-3440 | The operand swap and the inversion flag together turn the order of the aligned magnitudes into the order of the signed values. |
| Decimals.UnlikeSignOrder | library/WTL/Include/atlctrlx.h:3400-3418 | With a zero or unlike signs the order is decided by the signs alone, at any scales. |
| Decimals.CompareMantissas | library/WTL/Include/atlctrlx.h:3357-3377 | Its sign is the sign of the difference of the 96-bit mantissas. |
| Decimals.LVCompareDecimal | library/WTL/Include/atlctrlx.h:3483-3494 | Ascending it is negative exactly for the smaller value first, descending exactly for the larger one first, and 0 exactly for equal values. |
| Decimals.OrderFollowsDirection | library/WTL/Include/atlctrlx.h:3483-3494 | The function the order lemmas speak of is, in each direction, the strict order of the real values. |
| Decimals.SideOfZero | library/WTL/Include/atlctrlx.h:3396-3409 | A value is negative exactly with the sign bit set and a nonzero mantissa, and zero exactly with mantissa 0. |
| Decimals.OrderIsAntisymmetric | library/WTL/Include/atlctrlx.h:3483-3494 | Swapping the operands or the direction exactly reverses the answer; a decimal equals itself. |
| Decimals.OrderIsTransitive | library/WTL/Include/atlctrlx.h:3483-3494 | The order is transitive, and an equal chain is equal at every link. |
| Decimals.EqualDecimalsInterchange | library/WTL/Include/atlctrlx.h:3483-3494 | Decimals that compare equal are interchangeable in every other comparison. |
| ClientHook.Step | mmcore/Client/cli_hook.c:74-628 | One atomic step of the machine keeps the invariant: the hook thread lives exactly outside STOP, callbacks only run while it lives, and the current position is a real slot whenever the machine acts or may act remotely. |
| ClientHook.HighWord | mmcore/Client/cli_hook.c:483 | The signed 16-bit reading of the upper half of the mouse data. |
| ClientHook.Hook.Start | mmcore/Client/cli_hook.c:74-107 | Starting a stopped hook empties all slots and enters NORMAL; a running one is left alone and false is returned. |
| ClientHook.Hook.StopHooking | mmcore/Client/cli_hook.c:112-136 | Stopping empties the slots and resets the position; only a running hook can be stopped. |
| ClientHook.Hook.RegisterHandler | mmcore/Client/cli_hook.c:148-176 | A free slot is filled, a taken one is left alone; true is returned in both cases, so true means installed exactly when the slot was free or already held this handler. |
| ClientHook.Hook.UnRegisterHandler | mmcore/Client/cli_hook.c:179-196 | The slot, and nothing else, is emptied while the hook runs. |
| ClientHook.Hook.TakeControlBack | mmcore/Client/cli_hook.c:201-215 | Giving control back only sets the state to NORMAL: position, anchor and a callback under way stay. |
| ClientHook.Hook.MouseHookFunc | mmcore/Client/cli_hook.c:519-551 | The state is read once; the body that follows works on that copy. |
| ClientHook.Hook.OnNormalMouseAction | mmcore/Client/cli_hook.c:276-398 | A move beyond a border offers ENTER to that side's handler; only acceptance switches to REMOTE and anchors. |
| ClientHook.Hook.OnRemoteMouseAction | mmcore/Client/cli_hook.c:401-496 | Under the lock: re-anchor at an edge, or compute the delta to the previous point; decides whether a message is due and whether the event goes on. |
| ClientHook.Hook.CheckHandler | mmcore/Client/cli_hook.c:499-502 | The check, an unlocked read of the slot, drops the message if it is empty. |
| ClientHook.Hook.ReadFirst | mmcore/Client/cli_hook.c:511 | The first of the two unlocked reads of the call, of the handler or of the context, as the compiler chooses. |
| ClientHook.Hook.CallHandler | mmcore/Client/cli_hook.c:504-515 | The second read, and the call through what the two reads found: a null call if the handler read found the slot empty. |
| ClientHook.Hook.KeyboardHookFunc | mmcore/Client/cli_hook.c:556-580 | As for the mouse: the state is read once. |
| ClientHook.Hook.SendKey | mmcore/Client/cli_hook.c:582-628 | A remote key event goes to the current slot's handler, codes cut to a byte, and is never passed on. |
| ClientHook.WrongStateChangesNothing | mmcore/Client/cli_hook.c:74-215 | A start of a running hook, and a stop, register, unregister or control return of a stopped one, change nothing. |
| HookRuns.AtMostOneMessageAfterControlReturn | mmcore/Client/cli_hook.c:201-215 | In every interleaving at most one mouse or keyboard message is delivered between a control return and the next accepted ENTER, and none if no callback was acting remotely. |
| HookRuns.OnlyTheStaleCallbackDelivers | mmcore/Client/cli_hook.c:499-628 | Outside REMOTE and without a new accepted ENTER, the inputs delivered over any run never exceed the one callback already under way. |
| HookRuns.RemoteActsOnTheAcceptedSlot | mmcore/Client/cli_hook.c:300-628 | Over every run from a stopped hook, every message goes to the slot that most recently accepted ENTER, that slot index is in bounds even for a stale callback, and the fatal branches are unreachable. |
| HookRuns.RunKeepsLocation | mmcore/Client/cli_hook.c:276-628 | The same from any state in which the current position is the last accepted one. |
| HookRuns.AStaleMessageCanFollow | mmcore/Client/cli_hook.c:556-628 | The bound is reached: a run from a stopped hook in which a key callback reads REMOTE, control is given back, and the callback still delivers. |
| HookRuns.AnchorIsWarpTargetIffOnTheBorder | mmcore/Client/cli_hook.c:432-459 | The new anchor is where the requested warp puts the pointer if and only if the pointer sits exactly on the border. |
| HookRuns.WarpLeadsToTheOppositeBorder | mmcore/Client/cli_hook.c:432-459 | For every border hit, x before y, the pointer is asked to move by the extent towards the opposite border on that axis only, and the anchor is the opposite border at the other coordinate of the point. |
| HookRuns.WarpIffABorderIsHit | mmcore/Client/cli_hook.c:432-459 | A warp happens if and only if the point is not strictly inside the screen. |
| HookCalls.CallReadsTwice | mmcore/Client/cli_hook.c:502-511 | Whatever other threads do around its two reads, in either order of them, a call goes through the slot's handler of one moment with the slot's context of the other. |
| HookCalls.RegisteredPairIff | mmcore/Client/cli_hook.c:511 | A call that goes through a handler delivers the registered pair if and only if the slot held the same context at both reads. |
| HookCalls.SameContextIffNotUnregistered | mmcore/Client/cli_hook.c:179-196 | With contexts that are not NULL and not registered twice, that is if and only if the slot was not unregistered between the reads. |
| HookCalls.AContextCanBeAnothers | mmcore/Client/cli_hook.c:499-513 | Runs from a stopped hook in which a message reaches one registration's function with another's context, or with NULL. |
| HookCalls.NullCallIffUnregisteredMeanwhile | mmcore/Client/cli_hook.c:499-512 | A call through an emptied slot happens if and only if the last change of that slot between check and handler read, over any steps of other threads, was an unregistration. |
| HookCalls.ANullCallCanHappen | mmcore/Client/cli_hook.c:499-512 | A run from a stopped hook that ends in such a call. |
| HookCalls.MessagesGoToTheCrossedSide | mmcore/Client/cli_hook.c:290-628 | Over every run from a stopped hook an ENTER is only sent to a handler registered for the side the pointer has crossed, left and right before up and down; a key only to a registered pair of its slot; a mouse message only to a registered function of its slot, with NULL or a registered context of that slot. |
| HookCalls.RemoteEventsAreSwallowedButMoves | mmcore/Client/cli_hook.c:276-628 | Over every run from a stopped hook, what a callback returns to the system follows from what it did: a remote key, button, wheel or edge-hit event is swallowed, whether or not its message found a handler; a remote move inside the screen and a move offered as ENTER go on. |
| HookCalls.QuietEventsGoOnInNormal | mmcore/Client/cli_hook.c:276-628 | An event whose only effect is its answer is passed on if and only if the callback works in NORMAL. |
| HookCalls.KeyMessageSaysWhatHappened | mmcore/Client/cli_hook.c:585-607 | A key message is made exactly for the four key kinds, is a press exactly for the two key-down kinds, and carries both codes modulo 256. |
| HookCalls.InputGoesToRegisteredPairs | mmcore/Client/cli_hook.c:499-628 | Without an unregistration every message of a run goes to a registered pair of its slot. |
| HookCalls.LateCallLocksALiveMutexIff | mmcore/Client/cli_hook.c:112-215 | A register, unregister or control-return call that has passed its unlocked test locks a live mutex if and only if the last start or stop of the hook since then was not a stop. |
| HookMovement.ForwardedMovementIsConserved | mmcore/Client/cli_hook.c:429-513 | Over every run the deltas forwarded since the last anchor sum to the previous point minus the anchor if and only if the moves that found their slot empty at the check or at the handler read sum to zero. |
| HookMovement.RemoteMoveIsLostIff | mmcore/Client/cli_hook.c:429-515 | Whatever other threads do around it, the delta of a remote move is dropped if and only if the last change of the slot before the check, or between check and handler read, was an unregistration or the slot was empty all along; otherwise it is forwarded. |
| HookMovement.DropsIffUnregistered | mmcore/Client/cli_hook.c:499-513 | Over any run within one life of the hook, the check or the handler read drops its message if and only if the last change of the current slot was an unregistration. |
| HookMovement.MovementIsConservedWithoutUnregister | mmcore/Client/cli_hook.c:300-513 | In every run from a stopped hook without an unregistration the forwarded deltas sum to exactly that difference. |
| HookMovement.MovementCanBeLost | mmcore/Client/cli_hook.c:429-515 | A run from a stopped hook in which a nonzero delta is dropped and conservation fails. |
| HookMovement.StepKeepsBalance | mmcore/Client/cli_hook.c:429-513 | Every step of any thread keeps previous point, anchor, forwarded, dropped and carried deltas in balance; button, wheel and key events contribute nothing. |
| ServerRuns.SessionsLiveOneAtATime | mmcore/Server/server.c:172-217 | In every interleaving of main, I/O and window thread: at most one session lives, no session call touches a null, closed or second session, each opened session is closed exactly once unless it still lives, and none lives when the I/O thread waits for a client or the server is down. |
| ServerRuns.LockDiscipline | mmcore/Server/server.c:172-217 | The lock is held by exactly the thread inside a locked region, every lock and unlock falls inside the mutex lifetime, and nobody holds it when it is destroyed or its holder is joined. |
| ServerRuns.StepKeepsInv | mmcore/Server/server.c:194-266 | The invariant tying thread positions, mutex, start flag and session pointer is kept by every step, stop order included. |
| ServerRuns.StepIsLegal | mmcore/Server/server.c:282-426 | Every step's session calls are legal for the session alive at that moment. |
| ServerRuns.OnlyCloseFollowsIffNoNotification | mmcore/Server/server.c:337-390 | After a failed round only the close follows for that session if and only if no clipboard notification gets the lock first; anything that does come in between is such a notification. |
| ServerRuns.AFailedSessionCanStillBeUsed | mmcore/Server/server.c:396-426 | A concrete run in which a failed receive is followed by clipboard calls on the same session. |
| ServerSession.LegalHistoryClosesOnce | mmcore/Server/server.c:282-390 | In a legal call history opens and closes of a session are counted: one open each, one close each except for the live one. |
| ServerSession.RoundStopsAtFirstFailure | mmcore/Server/server.c:333-382 | A round's first failing callback is its last call, and it fails exactly when select failed or some callback did. |
| ServerSession.TimerRunsIffATickHasPassed | mmcore/Server/server.c:337-355 | With the clock not behind the mark, a round calls the timer exactly once and first if select did not fail and at least 1000 ms have passed since the mark, otherwise not at all; the mark moves to the later clock reading exactly when the timer was called and succeeded. |
| ServerSession.TimerCallsAreATickApart | mmcore/Server/server.c:286-355 | Over every session whose clock does not step back, the timer calls, with the times they were made, each come at least one tick after the mark before them. |
| ServerSession.Server.HandleBlock | mmcore/Server/server.c:333-382 | One pass of the handle block, every exit releasing the lock, equals the round specification. |
| ServerSession.Server.TransferData | mmcore/Server/server.c:363-379 | Receive first, send only if that went well and writing was asked for. |
| ServerSession.Server.PrepareSets | mmcore/Server/server.c:298-324 | The session is only looked at under the lock, which is released. |
| ServerSession.Server.OpenSession | mmcore/Server/server.c:282-284 | A new session is installed under the lock. |
| ServerSession.Server.CloseSession | mmcore/Server/server.c:387-390 | The session is closed and the pointer cleared under the lock. |
| ServerSession.Server.OnWindowNotify | mmcore/Server/server.c:396-429 | A notification touches the session only if there is one, only for clipboard data, and sends only to an entered one. |
| ServerSession.Server.ScanPorts | mmcore/Server/server.c:131-150 | The scan returns the first accepted port, gives up on any other error, or is still going when the answers run out. |
| ServerSession.ScanOfTakenPortsEndsIff | mmcore/Server/server.c:134 | With all ports taken, a scan longer than its range has ended if and only if the range does not end at 65535. |
| ServerSession.Server.Start | mmcore/Server/server.c:153-189 | It succeeds exactly when a port was found and the window started; a failing listen does not stop it and leaves an invalid socket. |
| ServerStop.StopCanComplete | mmcore/Server/server.c:194-218 | From every state in which Srv_Stop has begun, whatever the callbacks answer at each step, the threads have a continuation of at most 27 steps after which the server is down. |
| ServerStop.StopCompletesFromAnyRun | mmcore/Server/server.c:194-218 | The same after any interleaving from the start. |
| ServerStop.StopMustComplete | mmcore/Server/server.c:206-217 | Once the window thread is joined no run is longer than a fixed rank and no state short of the end is stuck. |
| ServerStop.SoundIffNoStartGetsAPort | mmcore/Server/server.c:123-189 | Over every interleaving that also contains calls of Srv_Start on the running server, the server stays sound in every state if and only if none of those calls gets a port. |
| ServerStop.StartIsSafeIff | mmcore/Server/server.c:123-189 | One call of Srv_Start keeps the server sound if and only if the server is not started or the call gets no port. |
| ServerStop.ASecondStartBreaksTheServer | mmcore/Server/server.c:172-181 | A concrete run after which a second start that gets a port lets the I/O thread use a destroyed lock and a null session. |
| ServerSession.FoundPortLiesInRangeIff | mmcore/Server/server.c:134-150 | Helper for reading scan results: below 65535 a found port is the first accepted one of the range; with the range open to 65535 it lies in it exactly before the wrap. |
| ServerSession.SessionStopsAtFirstFailure | mmcore/Server/server.c:287-383 | A session only calls into itself; it ends well after all rounds, or at the call that failed, or at a performed round whose select failed, and in no other way. |
| ServerSession.Server.HandleClientControl | mmcore/Server/server.c:273-393 | The whole call sequence of a session: its open, the rounds performed until the first failure, its close on the same session. |
| ServerRounds.AcceptedClientGetsItsSession | mmcore/Server/server.c:227-390 | In the machine of three threads an accepted client gets, when nobody interferes, its open and then exactly the calls of the session body, and is left at the loop test with its result. |
| ServerRounds.RoundsFollowTheBody | mmcore/Server/server.c:287-383 | After any number of undisturbed rounds of the I/O thread its calls, clock mark and result are those of the session body. |
| ServerRounds.NotificationMakesItsCalls | mmcore/Server/server.c:396-429 | An undisturbed notification makes the calls of the window function and leaves every other part of the state as it was. |
| Transfer.SendAll | mmcore/Common/net.c:483-534 | On every exit the inner calls made, with the budget each was given and the bytes it put on the wire, the count and the result are those of the transfer specification; exactly the first *bt bytes went out; the length is returned exactly when all did, otherwise 0 or -1. |
| Transfer.RecvAll | mmcore/Common/net.c:538-590 | The same for receiving: exactly the next *bt bytes of the stream are in the buffer, in order, the rest of it is untouched. |
| Transfer.SendTimeout | mmcore/Common/net.c:408-443 | What one send puts on the wire is a prefix of its data, as long as it reports; select is given the timeout it was passed; the stream stays first in, first out. |
| Transfer.RecvTimeout | mmcore/Common/net.c:446-480 | What one receive takes off the stream lands in order at the given offset and nowhere else, under the timeout it was passed. |
| Transfer.TimevalIsTimeoutIff | mmcore/Common/net.c:418-422 | select waits for the timeout asked for if and only if its seconds fit a long. |
| Transfer.LengthMeansAll | mmcore/Common/net.c:493-533 | The length is returned if and only if all bytes were moved; every other exit returns 0 or -1. |
| Transfer.Returned | mmcore/Common/net.c:408-480 | An inner call returns exactly the count it reported, and -1 after a timeout or a failed select. |
| Transfer.SucceedsIff | mmcore/Common/net.c:483-590 | A transfer returns its length if and only if nothing is to be moved, or there is data enough and there is a call such that every call up to it moves something within its room, together they report exactly the length, and the time spent before it stays below the timeout, if there is one. |
| Transfer.BudgetIsTimeoutMinusTimeSpent | mmcore/Common/net.c:490-531 | Every inner call gets the timeout minus all time spent before it, a positive amount from the second call on, none without a timeout; at most one call per byte is made. |
| Transfer.DeadlineIffTimeSpent | mmcore/Common/net.c:518-530 | The deadline exit is taken if and only if, after a call that moved bytes and left some over, the time spent has reached the timeout. |
| Transfer.CountIsWhatMoved | mmcore/Common/net.c:503-533 | The count is what the inner calls moved, only the last may move nothing, and a short transfer returns the last call's 0 or -1, or -1 at the deadline. |
| Transfer.CallsMoveTheData | mmcore/Common/net.c:493-533 | The bytes of the inner calls, in order, are exactly the data up to the count. |
| Transfer.FifoDeliversInOrder | mmcore/Common/net.c:408-480 | For every interleaving of inner calls of both ends, what was taken is a prefix of what was put. |
| Transfer.ReceivedIsSent | mmcore/Common/net.c:483-590 | With the inner calls of a sending and a receiving loop interleaved and chunked in any way, and any exits, what was received is a prefix of what was sent; if both return the common length, the received buffer equals the sent one. |
| Transfer.MessagesArriveAsSent | mmcore/Common/net.c:483-590 | Over sequences of messages, as long as both loops have returned the agreed lengths, the i-th message received is the i-th sent. |
| Ipv4.WalkStopsAtHi | mmcore/Common/net.c:44-108 | Adding from lo, the comparison with hi is 0 after their difference and never before, also for a range of one address. |
| Ipv4.WalkVisitsTheRangeOnce | mmcore/Common/net.c:44-108 | Until then it visits every address of [lo, hi], and only those, exactly once and in increasing order. |
| Ipv4.Compare | mmcore/Common/net.c:44-63 | The sign of the comparison is the order of the big-endian values; 0 only for equal addresses. |
| Ipv4.SockAddr.Add | mmcore/Common/net.c:65-108 | The increment in place is the odometer step, false exactly on the wrap from 255.255.255.255. |
| Ipv4.SuccessorIsPlusOne | mmcore/Common/net.c:65-108 | The odometer step is plus one modulo 2^32. |
| Ipv4.WalkFromAboveWraps | mmcore/Common/net.c:44-108 | From above hi the walk ends too, after wrapping, and not before. |
| GrowableString.ComString.constructor | mmcore/Common/string.c:39-46 | A fresh string has no live characters and room for eight, all cells zero. |
| GrowableString.ComString.Reserve | mmcore/Common/string.c:74-91 | Afterwards there is room for num characters and a terminator; live cells are kept, new ones are zero. |
| GrowableString.ComString.Clear | mmcore/Common/string.c:93-98 | The count is 0 and only cell 0 is written. |
| GrowableString.ComString.Append | mmcore/Common/string.c:100-114 | Live cells become the old ones plus the text, followed by a terminator; cells behind are untouched. |
| GrowableString.ComString.AppendChar | mmcore/Common/string.c:184-188 | The live cells grow by the character and no terminator is written. |
| GrowableString.RunRefinesConcatenation | mmcore/Common/string.c:74-188 | Over every run the live contents are plain concatenation (restarted by a clear), slack is at least one cell, and without a clear every cell behind the contents is zero. |
| GrowableString.AppendsReadBack | mmcore/Common/string.c:39-188 | After appends alone a C reader of the buffer reads exactly what was appended. |
| GrowableString.AppendTextTerminates | mmcore/Common/string.c:100-114 | Appending a text restores the terminator whatever the cells held before, a clear included. |
| GrowableString.AppendCharTerminatesIff | mmcore/Common/string.c:184-188 | Appending a character leaves a terminated string if and only if the buffer grew or the next cell was already zero. |
| GrowableString.ClearExposesStaleCharacters | mmcore/Common/string.c:93-98 | A concrete run: "ab", clear, then x, reads as "xb". |
| GrowableString.ClearReadsEmpty | mmcore/Common/string.c:93-98 | Every valid string reads as empty and is terminated after a clear, which keeps its room and all cells behind the first. |
| GrowableString.RunsReadEmptyAfterAClear | mmcore/Common/string.c:93-98 | After any run, a clear reads as empty. |
| GrowableString.GrowthIsLinear | mmcore/Common/string.c:74-114 | Every append-only run moves at most two live characters per character appended and never holds more than max(18, 2·count + 2) cells. |
| GrowableString.AppendIsAmortised | mmcore/Common/string.c:82-90 | The potential step behind it: no single append breaks the capacity bound or spends more than what has been saved. |
| ButtonSearch.GetNextMenuItem | library/WTL/Include/atlctrlw.h:2879-2908 | Observed for any number of iterations, the loop has answered exactly what the first stopping button in cyclic order says, or is still running. |
| ButtonSearch.GetPreviousMenuItem | library/WTL/Include/atlctrlw.h:2849-2877 | The same in the other direction. |
| ButtonSearch.SearchEndsIff | library/WTL/Include/atlctrlw.h:2849-2908 | A search ends if and only if it does not start at the end whose wrap skips the guard or some button, the start included, stops it; then one pass suffices. |
| ButtonSearch.AnsweredOnceAStopIsSeen | library/WTL/Include/atlctrlw.h:2849-2908 | A search observed for some iterations has answered exactly when it has met a stopping button or seen them all and the search ends, and then with the final answer. |
| ButtonSearch.NextIsNearest | library/WTL/Include/atlctrlw.h:2879-2908 | From a usable start the search ends, with b if and only if b is usable, unclipped and the nearest other stopping button, with -2 if and only if a clipped one is met first, with -1 if and only if there is neither. |
| ButtonSearch.PreviousIsMirroredNext | library/WTL/Include/atlctrlw.h:2849-2908 | Searching backwards is searching forwards in the mirrored menu, so everything about next holds of previous. |
| ButtonSearch.PreviousUndoesNext | library/WTL/Include/atlctrlw.h:2849-2908 | Without clipped buttons, previous after next returns to the start. |
| MenuTracking.TrackingRestoresEveryItem | library/WTL/Include/atlctrlw.h:2785-2846 | For every sequence of messages while a popup is tracked, popups initialised any number of times and closing menu-selects anywhere: the handle stack is empty afterwards, each record was freed exactly once, converted items have their type and text back, and their state unless the bar is attached and a closing menu-select followed an initialisation of their menu; owner-draw items of others and other menus are untouched. |
| MenuTracking.StateIsLostIff | library/WTL/Include/atlctrlw.h:1357-1396 | A convertible item with a nonzero state loses it if and only if the bar is attached and a closing menu-select comes after an initialisation of its menu. |
| MenuRestoration.CleanupRestoresEveryItem | library/WTL/Include/atlctrlw.h:1286-1340 | The part of it between two cleanups: after any initialisations, either cleanup leaves no live record, frees each once, and gives converted items back type and text, and their state unless it is the one of a closing attached menu. |
| MenuConversion.CommandBar.DoTrackPopupMenu | library/WTL/Include/atlctrlw.h:2766-2847 | A tracked popup is the handling of all messages the bar gets meanwhile, attached or not, followed by the final cleanup of whatever the handle stack still holds. |
| MenuRestoration.ItemUnchangedIff | library/WTL/Include/atlctrlw.h:2810-2845 | A converted item comes back exactly as it was if and only if it had no item data of its own, its text fits the buffer and, for a closing attached menu, its state was zero. |
| MenuRestoration.ConvertAtKeeps | library/WTL/Include/atlctrlw.h:1296-1336 | Converting any item keeps the invariant that live records and converted items correspond one to one. |
| MenuRestoration.RestoreAtKeeps | library/WTL/Include/atlctrlw.h:2818-2843 | Restoring any item, converted or not, keeps it, and a restored item is never restored again. |
| MenuConversion.CommandBar.OnInitMenuPopup | library/WTL/Include/atlctrlw.h:1240-1343 | Which popups are converted, item by item, and pushed. |
| MenuConversion.CommandBar.ConvertItem | library/WTL/Include/atlctrlw.h:1298-1335 | One item: a record of type, state, cut text and button index, or nothing for an owner-draw item. |
| MenuConversion.ConvertedItem | library/WTL/Include/atlctrlw.h:1298-1335 | The item becomes owner-draw with its kind, state and id kept, a text cut at the buffer and a fresh record as its data; every other item is as before. |
| MenuConversion.RecordTellsTheItem | library/WTL/Include/atlctrlw.h:1298-1330 | The record holds kind, state, the text up to 99 characters and the first button of the item's command, or -1 if it has none. |
| MenuConversion.CommandBar.RestoreItem | library/WTL/Include/atlctrlw.h:2820-2842 | One item of the cleanup: set back from its record, which is freed, or left alone. |
| MenuConversion.CommandBar.CleanUp | library/WTL/Include/atlctrlw.h:2809-2845 | The cleanup empties the handle stack, restoring the last pushed menu first. |
| MenuConversion.CommandBar.OnMenuSelect | library/WTL/Include/atlctrlw.h:1345-1399 | A closing attached menu triggers the cleanup whose structure carries no state. |
| MenuConversion.CommandBar.Pop | library/WTL/Include/atlctrlw.h:110-122 | The last pushed handle, or NULL on an empty stack. |
| MenuConversion.CommandBar.FindButton | library/WTL/Include/atlctrlw.h:1316-1324 | The first button of the command, -1 exactly if there is none. |
| TabView.RunsKeepTheActivePage | library/WTL/Include/atlctrlx.h:3785-4121 | Over every run of page operations the active index is -1 exactly without pages and otherwise valid, pages stay distinct, and while all operations are tidy only the active page is shown. |
| TabView.OnlyActiveShownIffTidy | library/WTL/Include/atlctrlx.h:3794-3798 | One operation keeps only the active page shown if and only if it does not insert at or before the active index and does not move another page onto or across it. |
| TabView.RemoveKeepsOrReplacesActive | library/WTL/Include/atlctrlx.h:4036-4086 | Removing another page keeps the same page active; removing the active one activates its left neighbour or the new first page. |
| TabView.NoPageIsLeft | library/WTL/Include/atlctrlx.h:4088-4121 | After removing all pages none is listed, active or shown; exactly they have been destroyed if asked, and no other window is touched. |
| TabView.MoveActivatesTheMovedPage | library/WTL/Include/atlctrlx.h:4509-4552 | A move activates the moved page at its new index, keeps the order of all others and loses none. |
| TabView.Apply | library/WTL/Include/atlctrlx.h:3785-4121 | Every operation, from any valid view, leaves a valid active index. |
| TabView.CopyThenDelete | library/WTL/Include/atlctrlx.h:4533-4545 | Inserting the copy first and deleting at the shifted index is removing and then inserting. |
| TabView.MovedAt | library/WTL/Include/atlctrlx.h:4533-4545 | Where every page is after a move. |
| TabView.TabViewImpl.SetActivePage | library/WTL/Include/atlctrlx.h:3785-3810 | The page the old index names now is hidden, then the new one shown. |
| TabView.TabViewImpl.InsertPage | library/WTL/Include/atlctrlx.h:3983-4034 | The page list grows at the index and the new page is activated by the shifted list; a refused tab changes nothing. |
| TabView.TabViewImpl.AddPage | library/WTL/Include/atlctrlx.h:3978-3981 | Adding is inserting behind the last page. |
| TabView.TabViewImpl.RemovePage | library/WTL/Include/atlctrlx.h:4036-4086 | The page leaves the list and is destroyed or hidden; the active index follows. |
| TabView.TabViewImpl.RemoveAllPages | library/WTL/Include/atlctrlx.h:4088-4121 | All page windows are hidden or destroyed and the active index is -1. |
| TabView.TabViewImpl.MovePage | library/WTL/Include/atlctrlx.h:4509-4552 | Invalid indices or a refused tab change nothing; otherwise the page sequence is the moved one. |
| SortColumns.RunsShowTheSheet | library/WTL/Include/atlctrlx.h:3505-3542 | Over every run of column inserts, deletes, type changes and sorts, the indices the code keeps show a sheet kept by column identity: each sort type follows its column, the sort column is the one last chosen or none once deleted, only it is marked, with the current direction, and every other column has its own look. |
| SortColumns.ApplyShows | library/WTL/Include/atlctrlx.h:3505-3556 | The same for one operation from any state. |
| SortColumns.LookSurvivesSortingIff | library/WTL/Include/atlctrlx.h:2856-2909 | A former sort column has exactly its look back if and only if common controls 6 does not draw the arrow or it had no arrow of its own. |
| SortColumns.MarkShowsTheDirection | library/WTL/Include/atlctrlx.h:2856-2909 | The sort column carries the down arrow or bitmap exactly when descending, the up one exactly when ascending, and keeps all its other format flags. |
| SortColumns.SortingPermutesItemsWithTheirData | library/WTL/Include/atlctrlx.h:2995-3081 | Whatever order the system chooses, no item is lost and each has its own data back. |
| SortColumns.SortListView.SetSortColumn | library/WTL/Include/atlctrlx.h:2847-2909 | The old sort column is unmarked, the new one marked, on both common-control branches. |
| SortColumns.SortListView.SetColumnSortType | library/WTL/Include/atlctrlx.h:2913-2918 | One type is replaced. |
| SortColumns.SortListView.OnInsertColumn | library/WTL/Include/atlctrlx.h:3505-3525 | Types shift with the columns, the new column sorts as text, the sort index follows its column; a refused insert changes nothing. |
| SortColumns.SortListView.OnDeleteColumn | library/WTL/Include/atlctrlx.h:3527-3542 | The type leaves with its column, the sort index follows or becomes -1; a refused delete changes nothing. |
| SortColumns.SortListView.SetParams | library/WTL/Include/atlctrlx.h:2995-3002 | Every item's data is saved in its parameter and replaced by a reference to it. |
| SortColumns.SortListView.RestoreData | library/WTL/Include/atlctrlx.h:3072-3081 | Every item, wherever it was moved, gets its own saved data back. |
| SortColumns.SortListView.DoSortItems | library/WTL/Include/atlctrlx.h:2955-3094 | The rows are the old rows, data included, in the system's order; sort column and direction change exactly on success, and fewer than two rows always succeed. |
| SortColumns.SortListView.OnHeaderItemClick | library/WTL/Include/atlctrlx.h:3544-3556 | A click on the sort column turns the direction round, on another one sorts ascending; no item is lost. |

## Left out

- Windows itself: hook installation, sockets, `select`, windows, threads and the clock are parameters whose
  every answer is allowed; `mouse_event` is only recorded as a request.
- Reentrant hook callbacks and hook codes other than HC_ACTION, which are passed on unseen.
- ClientHook.Hook.Start: Hook_Cli_Start and Hook_Cli_Stop are one step each, taken while no callback is under way; calls of
  other functions from other threads during them are only covered by HookCalls.LateCallLocksALiveMutexIff; a failing thread or hook
  creation, which is fatal, is not modelled.
- Screen coordinates are unbounded integers; the code's differences of 32-bit points could only overflow far outside any screen.
- Fatal exits of the server (`accept` failing other than by timeout, window creation) and the client address lookup of Srv_Start.
- ServerRuns.SessionsLiveOneAtATime: Srv_Start is called on a server that is down; calls on a running one are in ServerStop. Every locked region is one body step between taking and releasing the lock, so what a
  session function does inside is not modelled, only that it is called and on which session.
- ServerRuns.OnlyCloseFollowsIffNoNotification: about failures the I/O thread sees; a clipboard send that fails on the window
  thread only changes the notification's result and closes nothing.
- ServerStop.SoundIffNoStartGetsAPort: a second start is one step in which nobody else runs; other steps are not interleaved with it.
- ServerSession.Server.HandleClientControl: one session without interference; interleavings are in ServerRuns, and ServerRounds says how the two agree.
- ServerSession.Server.ScanPorts and ButtonSearch.GetNextMenuItem, GetPreviousMenuItem: loops that may not end are followed for as
  many iterations as a parameter allows; the answer "still running" is part of the result, and the lemmas about them hold
  for every number of iterations.
- Transfer.SendTimeout: socket results other than a byte count, 0 or -1.
- Transfer.RecvAll: all bytes the peer sends before the call ends are on the wire from its start; when they become readable is
  decided by the script of inner calls. Transfer.ReceivedIsSent and Transfer.MessagesArriveAsSent interleave both ends call by call.
- GrowableString.ComString.Reserve: allocation failure and overflow of `size_t`; characters are `char`, not UTF-16 units.
- The format functions of the string class, which rest on the C runtime.
- MenuConversion.CommandBar.DoTrackPopupMenu: the application does not change menus while they are tracked; separators'
  text, submenus, ModifyMenu's redraw and Vista menus are not modelled, allocation does not fail,
  and a foreign item value is never taken for one of the bar's records.
- ButtonSearch.GetPreviousMenuItem: buttons and menu items are the same list, as the command bar keeps them, and their states do not change during a search.
- TabView.TabViewImpl.InsertPage: titles, images, redraw and focus, and a tab control that inserts elsewhere than asked.
- SortColumns.SortListView.DoSortItems: the system's sort is any permutation with any reported result; text conversion and the
  comparators other than the decimal one, and sort types the application registers beyond the list, are not modelled.
- SortColumns.SortListView.SetSortColumn: reading a header item succeeds for a valid index, and a change of system settings, which reloads the bitmaps, is not modelled.
- Byte order helpers, notification builders, the clipboard echo flag, drawing, dialogs and the other WTL controls: field copies or plumbing.
