# panglos: verified models

Dafny models of the stateful cores of the panglos embedded library, and proofs about them. Code that works by
changing state is modelled by classes and methods; each method is proved against a function on values, and what
the code promises is proved about those functions, over all inputs, runs and interleavings.

| part | files |
|---|---|
| stepper motor: ramp and position controller | `MotorModel`, `MotorSeek`, `MotorRotate`, `MotorRuns`, `MotorPeriods`, `MotorDriver` |
| blocking queue of the Linux port | `QueueProtocol`, `QueueMessages`, `LinuxQueue` |
| device start-up | `DeviceModel`, `DeviceProofs`, `DeviceStartup`, `DeviceDriver` |
| JSON parser and path matcher | `JsonModel`, `JsonParser`, `JsonNesting`, `JsonErrors`, `JsonAnswers`, `JsonBounds`, `JsonPrint`, `JsonRoundTrip`, `JsonAccepts`, `JsonMatch`, `JsonMatcher`, `JsonKeyPath` |
| timed event queues on linked lists | `EventOrder`, `EventList`, `EventQueues` |
| bit-banged I2C master | `I2cBus`, `I2cMaster` |
| Modbus checksum and frames | `BitXor`, `Crc16`, `CrcValues`, `ModbusFrame` |
| byte buffers and ring buffer | `BufferModel`, `BufferRuns`, `BufferChain`, `RingModel`, `RingBuffer` |
| shared facts | `Bytes`, `Modulo`, `Wrappers` |

`dafny verify dfyconfig.toml` checks all of it.

## Findings

- **A seek need not end.** On a circle with an odd number of positions, at least 3 but fewer than twice the ramp
  length, a run exists after which a seek to position 0 turns backwards for ever: it comes to a stop one below
  zero, which is the far end of the circle, and the way back from there is overshot in the same way. Every seek of
  every run comes to rest on its target exactly when the number of positions is even, or 1, or at least twice the
  ramp length (`MotorRuns.SeeksSettleExactly`). Target 0 is the only dangerous one: seeks to any other position end
  on every circle (`MotorRuns.TargetsSettleExactly`). A seek that ends takes at most `3 * steps + size + 1` polls.
- **A rotation need not end.** On a circle of three positions, with a ramp of two speeds or more, a rotation from
  0 to 1 turns for ever; on every other geometry every rotation ends (`MotorRuns.RotationsSettleExactly`). So the
  misreported distance across zero costs time, but nothing else.
- **A seek during a rotation is forgotten.** The rotation goes on to its goal, and its goal becomes the target
  (`MotorRuns.SeekIsForgotten`).
- **The put semaphore's first tokens do not matter.** The queue posts as many as a message has bytes, not as many
  as there are slots; no wake-up is lost with any number of them (`QueueProtocol.EveryRunIsSafe`), and no message
  (`QueueMessages.MessagesConserved`).
- **What the JSON parser accepts** is known exactly: over a section without NUL that begins an object or an array, it
  returns true just for the documents of `JsonPrint`, which are those of RFC 8259 but with a comma allowed after the
  last member or item, any run of numeric characters for a number, and any text without a bare quote for a string
  (`JsonAccepts.AcceptedExactly`).
- **The JSON parser reads on past its section** unless the next character stops it. It does not stop at characters
  of numbers, among them the NUL, which `strchr` finds at the end of its set, nor at letters of `true`, `false` and
  `null`, nor at `{` or `[`. With any other character after the section every run stays inside, and with each of
  these some run does not (`JsonBounds.StaysInsideExactly`). When the last character of the section is known too,
  the cursor of every run stays inside exactly if no literal, object or array begins with the next character and no
  number or literal goes on from the last into the next (`JsonBounds.ConfinesExactly`). So the text of a C string is
  safe exactly if it does not end in a numeric character or a NUL (`JsonBounds.CStringsConfine`); but an empty one
  gives the handler a number with a null end (`JsonBounds.NulIsNumeric`).
- **A null key is read** when the item list has the name `a` and the text is `[7]` (`JsonKeyPath.ArrayReadsNull`). In
  any run it happens at just those leaves with an open array that meets a name of one character behind names that
  match (`JsonKeyPath.NullReadExactly`); never if the names that the levels can meet are of other lengths
  (`JsonKeyPath.LongNamesAreSafe`).
- **Buffers can get stuck.** A buffer added behind one that is not full, or has no size, dams the chain, and only
  that does (`BufferRuns.DammedExactly`). From then on no byte behind the dam is ever read, whatever is called
  (`BufferRuns.DammedForGood`); `BufferRuns.AddedTooSoon` is such a run. What was accepted can still be read by some
  run exactly when no byte waits behind a buffer that is empty or not full (`BufferRuns.RecoverableExactly`). Adding
  buffers of some size only when there is no room avoids it: every read then gets all it asks for
  (`BufferRuns.FilledInTurnIsServed`).
- **A ring buffer is not guarded.** All that it reports and pops in a run is that of a bounded first-in, first-out
  queue exactly if no push comes when it reports that it is full and no pop when it reports that it is empty
  (`RingModel.RunsFollowExactly`). Otherwise values are lost and given twice, and it may report a sound state again
  afterwards (`RingModel.OverrunLosesOldest`, `RingModel.OverrunExample`).

## Reading the proofs

Some facts are stated as `forall k {:trigger Name(x, k)} :: Name(x, k) ==> ...`, where `Name` is always true. They
mean no more than their right-hand sides. The detour keeps the solver from unfolding recursive functions until a
proof names the value with `assert Name(x, 0)`.

A text that the JSON parser reads is a sequence of characters; functions read a blank past its end, methods must
never get there: their memory ends, somewhere after the section, in a character that no token begins with or goes on
into. The handler of a parse is a function from the callbacks so far to its answer, so every handler that depends
only on what it was told is covered. An I2C slave is a function from the number of a byte to its acknowledge bit; it
moves SDA only while SCL is low. Clocks are numbers below 2^32, and a ghost argument gives the true time that a
clock value stands for.

## Model

| member | source | states |
|---|---|---|
| `MotorDriver.OneCoilPerStep` | src/drivers/motor.cpp:49-70 | neighbouring states of the eight-phase cycle differ in exactly one coil, in both directions and across the wrap |
| `MotorDriver.MotorIo4.SetState` | src/drivers/motor.cpp:49-58 | the pins show the row of the cycle that belongs to the new state |
| `MotorDriver.MotorIo4.Step` | src/drivers/motor.cpp:60-70 | the state moves by one, modulo 8, and the pins follow |
| `MotorDriver.Accelerator.Decelerate` | src/drivers/motor.cpp:148-154 | every phase but STOP becomes DECEL |
| `MotorDriver.Accelerator.Go` | src/drivers/motor.cpp:156-247 | one step of the four-state ramp and its period; the table is never read outside its bounds |
| `MotorDriver.Stepper.Step` | src/drivers/motor.cpp:271-283 | count and coils move one position the same way, each modulo its own circle |
| `MotorDriver.Stepper.Seek` | src/drivers/motor.cpp:295-314 | the target is the position of the circle nearest to the request; the invariant is kept |
| `MotorDriver.Stepper.Rotate` | src/drivers/motor.cpp:316-330 | the pending goal differs from the request by whole turns, unless the motor is already there, when nothing changes; the invariant is kept |
| `MotorDriver.Stepper.GetDelta` | src/drivers/motor.cpp:358-395 | the signed distance the controller goes by, misreported across zero as the source has it |
| `MotorDriver.Stepper.IsReady` | src/drivers/motor.cpp:337-340 | home means distance 0 at ramp index 0, whatever the phase |
| `MotorDriver.Stepper.Poll` | src/drivers/motor.cpp:397-431 | one poll of motor and coils, and the period it returns, which is 0 for a motor that is home, and only then if no period of the ramp is 0 |
| `MotorDriver.Stepper.Settle` | unit-tests/motor_test.cpp:40-46 | the loop that polls until ready ends for every safe seek or rotation, at rest on the goal |
| `MotorModel.PollKeepsValid` | src/drivers/motor.cpp:397-431 | a poll keeps index, phase, count, target and pending rotation in range |
| `MotorModel.RequestsKeepValid` | src/drivers/motor.cpp:311-330 | so do a seek and a rotation, whatever the argument |
| `MotorModel.ReadyForever` | src/drivers/motor.cpp:397-404 | once home, no number of polls moves the motor |
| `MotorModel.WrapIsModulo` | src/drivers/motor.cpp:271-283 | the two corrections of the position are a remainder |
| `MotorSeek.BrakingStops` | src/drivers/motor.cpp:189-247 | braking always ends in a stop, whatever direction is asked for meanwhile |
| `MotorSeek.ComesToStop` | src/drivers/motor.cpp:397-431 | from any valid state of a seek the motor reaches a stop or its target in finitely many steps |
| `MotorSeek.SeekFromStop` | src/drivers/motor.cpp:397-431 | a seek from a stop ends home on the target or, only from an even distance too short for full speed, at a stop one position below it |
| `MotorSeek.SeekSettles` | src/drivers/motor.cpp:397-431 | on a safe geometry, or to a target other than 0, every seek comes to rest on the target within `3 * steps + size + 1` steps |
| `MotorSeek.SeekReachesTarget` | src/drivers/motor.cpp:337-431 | the same in polls: at most so many end home, and later ones change nothing |
| `MotorRotate.ClosingEnds` | src/drivers/motor.cpp:358-431 | every approach of a rotation ends home, or at a stop nearer to the goal than the one it left |
| `MotorRotate.RotateReachesGoal` | src/drivers/motor.cpp:316-431 | on a safe geometry every pending rotation ends within `(steps + 1) * (steps + size) + 1` polls on its goal at index 0, cleared, with target equal to count |
| `MotorRotate.ShorterWay` | src/drivers/motor.cpp:358-395 | a rotation takes the shorter way round, but for a way back that is longer by one position |
| `MotorRuns.RunKeepsCount` | src/drivers/motor.cpp:271-283 | in every run of seeks, rotations and polls the invariant holds, and count and coils equal their start plus the net steps, modulo the circle and modulo 8 |
| `MotorRuns.CircleIsReachable` | src/drivers/motor.cpp:397-431 | on each odd circle that is too short, a run from power-up leads into the endless circle |
| `MotorRuns.CirclesForever` | src/drivers/motor.cpp:397-431 | and no number of polls leads out of it |
| `MotorRuns.SeeksSettleExactly` | src/drivers/motor.cpp:397-431 | seeks end in all runs if and only if the circle is even, or 1, or at least twice the ramp length |
| `MotorRuns.TargetsSettleExactly` | src/drivers/motor.cpp:397-431 | target by target: seeks to it end in all runs if and only if the geometry is safe or the target is not 0 |
| `MotorRuns.SpinsForever` | src/drivers/motor.cpp:358-431 | the rotation on three positions that never ends |
| `MotorRuns.RotationsSettleExactly` | src/drivers/motor.cpp:358-431 | rotations end in all runs if and only if the circle has not three positions or the ramp one speed |
| `MotorRuns.SeekIsObeyed` | src/drivers/motor.cpp:295-431 | from the request: with no rotation pending, on a safe geometry or for a request of 1 or more, a seek ends at rest on the position of the circle nearest to the request, within so many polls and for good |
| `MotorRuns.RotationIsObeyed` | src/drivers/motor.cpp:316-431 | from the request, any integer: on a safe geometry a rotation ends at rest on a position that differs from the request by whole turns, or finds the motor there already and changes nothing |
| `MotorRuns.SeekIsForgotten` | src/drivers/motor.cpp:311-429 | a seek while a rotation is pending has no effect: the motor comes to rest on the goal of the rotation |
| `MotorRuns.SeekStaysBetween` | src/drivers/motor.cpp:397-431 | a seek from a stop to 1 or more keeps between start and target, but for one position below the target |
| `MotorPeriods.PeriodsUp` | src/drivers/motor.cpp:160-188 | the step periods from a stop: `min_p`, then the table upwards from its second entry, then `max_p` for as long as the motor is not told to brake |
| `MotorPeriods.PeriodsDown` | src/drivers/motor.cpp:189-203 | the step periods of braking: the table downwards from the entry of the present speed, to a stop |
| `MotorPeriods.PeriodsBack` | src/drivers/motor.cpp:217-244 | called back, each step has the period of the speed it slows down to, and the motor stops facing the other way |
| `MotorPeriods.PeriodsBackFromFull` | src/drivers/motor.cpp:210-216 | called back at full speed, the first step has the top entry of the table |
| `QueueProtocol.InitialInv` | src/linux/queue.cpp:31-56 | the invariant holds at power-up for any number of put tokens |
| `QueueProtocol.StepInv` | src/linux/queue.cpp:82-130 | every atomic step of any thread keeps it |
| `QueueProtocol.EveryRunIsSafe` | src/linux/queue.cpp:49-130 | in every interleaving: delivered messages are a prefix of accepted ones, no get fails, stored messages equal get tokens plus getters past their wait, and a blocked putter always has as many wake-ups on the way as there is room |
| `QueueMessages.PutsAreKept` | src/linux/queue.cpp:108-130 | in every interleaving from power-up, what is accepted for a thread, and then the message it still waits to put, are the messages of its calls of put, each once and in order, however often it waited |
| `QueueMessages.MessagesConserved` | src/linux/queue.cpp:82-130 | in every interleaving from power-up, each message is as often among those read, stored or in the hands of putters as it was asked to be put |
| `QueueProtocol.SchedulesEnd` | src/linux/queue.cpp:108-130 | without new calls every schedule stops: no putter spins for ever |
| `QueueProtocol.QuietMeansStarved` | src/linux/queue.cpp:82-130 | when nothing can move, getters wait only on an empty queue and putters only on a full one |
| `QueueProtocol.ReachesQuiet` | src/linux/queue.cpp:82-130 | the calls in flight have a schedule that comes to rest |
| `QueueProtocol.CallsConserved` | src/linux/queue.cpp:82-130 | calls in flight plus messages through are conserved, for gets and for puts |
| `QueueProtocol.OutcomeIsDetermined` | src/linux/queue.cpp:82-130 | any two schedules of the same calls let the same number of gets and of puts through |
| `LinuxQueue.SlotIsModulo` | src/linux/queue.cpp:97-119 | the slot of the ith waiting message is a remainder |
| `LinuxQueue.LinuxQueue.GetLocked` | src/linux/queue.cpp:89-105 | the critical section of a get, on the ring of slots, is that of the step system, or fails on an empty queue |
| `LinuxQueue.LinuxQueue.PutLocked` | src/linux/queue.cpp:113-126 | the critical section of a put likewise, false when full |
| `LinuxQueue.LinuxQueue.CountIsDifference` | src/linux/queue.cpp:97-121 | count equals in minus out modulo the number of slots |
| `DeviceProofs.InitMoves` | src/device.cpp:70-131 | a recursive initialisation is a sequence of moves, each of a queued device whose needs are done; no device with a call in progress is moved by another |
| `DeviceProofs.LegalKeeps` | src/device.cpp:113-128 | what a sequence of such moves keeps: distinct names, order, and that it moves each device once |
| `DeviceProofs.StuckStays` | src/device.cpp:88-110 | no legal move takes a device out of a set each of whose members needs another |
| `DeviceStartup.StartupIsSafe` | src/device.cpp:133-161 | successful or not: no init is called twice, every done device comes after all it needs, no device is lost, and true means that all came up |
| `DeviceStartup.InitCompletes` | src/device.cpp:70-131 | with needs that can be ordered and a nest limit for the queue, a device comes up or an init fails fatally |
| `DeviceStartup.StartupSucceedsExactly` | src/device.cpp:133-161 | a start-up of at most `loops` devices succeeds if and only if the needs can be ordered and no init fails that may not |
| `DeviceStartup.CallsAreAnswered` | src/device.cpp:113-123 | every logged call is that of a queued device, with what its init answers after all calls before it |
| `DeviceStartup.HealthyStartupSucceeds` | src/device.cpp:133-161 | when every init succeeds or may fail, a start-up of at most `loops` devices succeeds if and only if the needs can be ordered |
| `DeviceStartup.ShallowStartupSucceeds` | src/device.cpp:74-78 | with more devices than `loops`, a healthy start-up still succeeds if the needs go no deeper than `loops` and no more than `loops` devices are not needed by one before them in the queue |
| `DeviceStartup.HopelessFails` | src/device.cpp:99-104 | a cycle or a missing name reached by any queued device makes the start-up false, whatever the limits |
| `DeviceStartup.SolvableExactly` | src/device.cpp:70-161 | the needs can be ordered if and only if no set of queued devices is a cycle or lacks a name |
| `DeviceDriver.StaysQueued` | src/device.cpp:125-127 | while its needs come up, a device stays queued |
| `DeviceDriver.DeviceList.Find` | src/device.cpp:90-98 | the first device of that name, or none |
| `DeviceDriver.DeviceList.Remove` | src/device.cpp:126-127 | removes the first occurrence and says whether there was one |
| `DeviceDriver.InitDevice` | src/device.cpp:70-131 | the recursion on the two lists does what the function says; the assertion on the removal never fails |
| `DeviceDriver.InitDevices` | src/device.cpp:133-161 | so does the loop over the queue |
| `JsonParser.Parser.Skip` | src/json.cpp:19-36 | skips white space, then the wanted character if it is there |
| `JsonParser.Parser.Number` | src/json.cpp:342-361 | the run of numeric characters, NUL among them, and its slice |
| `JsonParser.Parser.String` | src/json.cpp:363-394 | the text up to the first quote that is not escaped, or an error |
| `JsonParser.Parser.Primitive` | src/json.cpp:396-429 | the literal that stands there, ended by white space, comma or bracket; else false without an error |
| `JsonParser.Parser.Object` | src/json.cpp:244-299 | the members, trailing comma allowed, each with its colon, and the closing brace, or the error that `JsonErrors.ErrorsAreExact` explains |
| `JsonParser.Parser.Array` | src/json.cpp:301-340 | the items, trailing comma allowed, and the closing bracket |
| `JsonParser.Parser.Value` | src/json.cpp:431-449 | the value that the next character announces |
| `JsonParser.Parser.Parse` | src/json.cpp:451-454 | the whole run: result, cursor, callbacks and error, without a read past a character that no token begins with or goes on into, be it the NUL of a C string or any other after the section; from a new parser whose handler refuses nothing, over a section without NUL that begins an object or an array, true if and only if a document stands there |
| `JsonRoundTrip.ValueParsed` | src/json.cpp:431-449 | a printed value of any depth is parsed to its end and gives its events |
| `JsonRoundTrip.PrintedDocumentParses` | src/json.cpp:244-454 | a printed document with any white space between its tokens, before any text at all, is parsed just past its bracket, with exactly its events and slices |
| `JsonAccepts.AcceptedExactly` | src/json.cpp:244-454 | over a section without NUL that begins an object or an array, `parse` returns true if and only if a document stands there, and then has read just its text and made just its callbacks |
| `JsonAccepts.AcceptedWithHandler` | src/json.cpp:220-454 | the same with any handler: unless it refuses a callback, true if and only if a document stands there; and whenever true, it was told just the document's events |
| `JsonNesting.WaitsBegins` | src/json.cpp:244-449 | a trace that nests so far can be completed |
| `JsonNesting.RunsNest` | src/json.cpp:244-449 | the callbacks of every run, on any text and with any handler, begin a well-nested trace; of a run that returns true they are all of one |
| `JsonErrors.ErrorsAreExact` | src/json.cpp:209-449 | when a run fails and the handler is not to blame, the error code, the cursor, the character there and what the callbacks so far wait for agree: a key, a colon, a bracket, a closing quote or a value is what was missing |
| `JsonAnswers.EveryAnswerIsHeard` | src/json.cpp:220-449 | on any text, a callback that is not answered with OKAY is the last, and the run is false with `USER_ERROR` at the cursor; the error does not arise otherwise, and then the run is that of a handler that always answers OKAY |
| `JsonBounds.StaysInsideExactly` | src/json.cpp:19-36 | the characters after a section that keep every run, on any text and with any handler, inside it: those that are part of no number or literal and open nothing, and no others |
| `JsonBounds.ConfinesExactly` | src/json.cpp:342-429 | the last character of a section and the next keep the cursor of every run inside if and only if no token begins with the next and none goes on from the last into it |
| `JsonBounds.CStringsConfine` | src/json.cpp:342-361 | with the NUL of a C string next, if and only if the last character is not numeric |
| `JsonBounds.RunsStayInside` | src/json.cpp:244-449 | with a character after the section that stops every run, a run ends at most one past it and hands out only slices of it |
| `JsonBounds.NulIsNumeric` | src/json.cpp:342-361 | two runs on a NUL: one hands out a null slice, the other leaves its section |
| `JsonMatch.ScanIsPrefix` | src/json.cpp:524-557 | the walk over the levels accepts an item exactly when its keys are a prefix of the path |
| `JsonMatch.ValueServed` | src/json.cpp:559-618 | a value of any kind leaves the levels as they were and makes the calls for its leaves |
| `JsonMatch.DocumentServed` | src/json.cpp:495-618 | over a printed document, arrays included, the calls are those for its leaves, in document order |
| `JsonMatch.EachItemIsTold` | src/json.cpp:524-557 | each item is told of just the leaves under its keys and within the nesting limit, once each, in order |
| `JsonMatcher.FollowsTurn` | src/json.cpp:559-581 | in every run, arrays included, the nesting level follows the open containers |
| `JsonMatcher.Matcher.Check` | src/json.cpp:524-557 | the loops over items and levels make the calls of the specification |
| `JsonMatcher.Matcher.OnLeaf` | src/json.cpp:583-618 | a leaf is checked and its key forgotten, unless it is too deep |
| `JsonMatcher.Matcher.Receive` | src/json.cpp:559-618 | the callbacks of any run take the levels where the specification says, and a key is only ever given to an object's level |
| `JsonKeyPath.EveryRunHoldsPath` | src/json.cpp:495-618 | after every part of every run, arrays included, the nesting level is the length of the path from the root, and levels[1..nest] within the limit hold its keys, the last one whenever a value comes next |
| `JsonKeyPath.NullReadExactly` | src/json.cpp:38-44 | in every run, when a leaf within the limit is checked, a null key is compared if and only if an open array meets a name of one character and the names before it match |
| `JsonKeyPath.LongNamesAreSafe` | src/json.cpp:524-557 | with no name of one character where the levels can meet it, no run compares a null key |
| `JsonKeyPath.ArrayReadsNull` | src/json.cpp:524-557 | the text `[7]` and any item whose first name has one character: a null key is compared |
| `EventOrder.SameComparison` | src/event.cpp:14-20 | the comparison of signed differences is that of the other queue |
| `EventOrder.WrappedIsTrue` | src/event_queue.cpp:12-18 | for times within half a turn of the clock, the wrapped difference is the true one |
| `EventOrder.OrderIsUnique` | src/list.cpp:101-127 | a set of pending events has only one order |
| `EventOrder.InsertAdds` | src/list.cpp:101-127 | insertion adds the event to the set and keeps the order, the newest of equal times first |
| `EventOrder.DueIsExact` | src/panglos/event_queue.h:87-101 | what is due is a front part of the queue, in order of time, and holds every pending event up to now and no other |
| `EventList.List.AddSorted` | src/list.cpp:101-127 | the node goes before the first that compares as not earlier, links rewritten in place |
| `EventList.List.Pop` | src/list.cpp:129-157 | the first node, unlinked |
| `EventList.List.Remove` | src/list.cpp:159-192 | the node is unlinked wherever it is, or false |
| `EventList.List.Append` | src/list.cpp:75-99 | the node goes last |
| `EventQueues.EvQueue.Add` | src/panglos/event_queue.h:50-53 | the queue on wrapped times inserts as the ideal queue on true times does |
| `EventQueues.EvQueue.Del` | src/panglos/event_queue.h:55-58 | removes that event only, and says whether it was pending |
| `EventQueues.EvQueue.Reschedule` | src/panglos/event_queue.h:60-65 | the event moves to its new place, pending or not, however far off its old time is |
| `EventQueues.EvQueue.Pop` | src/panglos/event_queue.h:67-85 | the earliest event if its true time has come |
| `EventQueues.EvQueue.Run` | src/panglos/event_queue.h:87-101 | runs exactly the due events, in order, and leaves the later ones |
| `EventQueues.TimerQueue.Add` | src/event.cpp:98-107 | inserts, and is true exactly when no pending event is earlier |
| `EventQueues.TimerQueue.Check` | src/event.cpp:128-156 | posts exactly the due events in order, and returns the true time to the next |
| `I2cBus.MarksAreConditions` | src/drivers/i2c_bitbang.cpp:38-80 | every move of SDA under a high SCL is heard as a START or a STOP |
| `I2cBus.Reassembled` | src/drivers/i2c_bitbang.cpp:82-91 | eight bits, most significant first, make the byte again |
| `I2cMaster.BitBangI2c.BitIo` | src/drivers/i2c_bitbang.cpp:50-61 | the receiver hears one bit, and the master reads back the same |
| `I2cMaster.BitBangI2c.Ack` | src/drivers/i2c_bitbang.cpp:63-69 | the master reads the slave's acknowledge |
| `I2cMaster.BitBangI2c.Io` | src/drivers/i2c_bitbang.cpp:82-97 | a byte goes out and comes back, followed by its acknowledge |
| `I2cMaster.BitBangI2c.WriteBytes` | src/drivers/i2c_bitbang.cpp:99-128 | bytes go out up to the first that is not acknowledged, and the result says whether all were |
| `I2cMaster.BitBangI2c.Write` | src/drivers/i2c_bitbang.cpp:130-180 | a receiver hears START, address, data up to the first NAK, STOP, and decodes just these bytes from the wires; SDA moves under a high SCL exactly twice; the result is the length if all was acknowledged, else 0 (UM10204, sections 3.1.3 to 3.1.6) |
| `I2cMaster.WrittenIsRead` | src/drivers/i2c_bitbang.cpp:99-136 | from START to STOP a receiver decodes exactly the bytes that were sent |
| `I2cMaster.SentUpToNak` | src/drivers/i2c_bitbang.cpp:99-136 | which are all of them, or those up to and with the first that is not acknowledged |
| `Crc16.ChecksumIsSerial` | src/drivers/pzem004t.cpp:138-158 | the byte-wise register is the bit-serial one of the standard |
| `Crc16.MeetingIsNear` | src/drivers/pzem004t.cpp:138-158 | two registers that n more bits bring together differ in their low n bits only |
| `Crc16.BurstIsFound` | src/drivers/pzem004t.cpp:138-158 | no burst of up to sixteen bits leaves the register as it was |
| `Crc16.SerialKeepsParity` | src/drivers/pzem004t.cpp:138-158 | the register has the parity of the bits it took |
| `Crc16.OddErrorsAreFound` | src/drivers/pzem004t.cpp:138-158 | no odd number of wrong bits does either |
| `CrcValues.FourBytes` | unit-tests/pzem004t.cpp:11-16 | the checksum of the bytes 0x12, 0x23, 0x34, 0x56, from the register of the standard, is 26722 |
| `CrcValues.RequestValue` | unit-tests/pzem004t.cpp:27-35 | that of the request to address 1 is 0x0d70, sent as 0x70, 0x0d |
| `ModbusFrame.Crc` | src/drivers/pzem004t.cpp:138-158 | the checksum of the first n bytes: 0xffff for n <= 0, and the value that the unit test gives for its frame |
| `ModbusFrame.AcceptedExactly` | src/drivers/pzem004t.cpp:66-86 | a frame ends in its checksum, low byte first, if and only if the checksum over all of it is zero |
| `ModbusFrame.ZerosAreRejected` | src/drivers/pzem004t.cpp:66-86 | no frame of zero bytes, of any length, is accepted |
| `ModbusFrame.CrcCheck` | src/drivers/pzem004t.cpp:66-86 | accepts exactly the frames of more than five bytes whose checksum over all bytes is zero |
| `ModbusFrame.Request` | src/drivers/pzem004t.cpp:49-64 | builds the request for ten registers, which the check accepts and which for address 1 ends in the two bytes of the unit test, and is true exactly when the line takes all of it |
| `ModbusFrame.BurstIsRejected` | src/drivers/pzem004t.cpp:66-86 | an accepted frame with a burst of up to sixteen wrong bits is rejected |
| `ModbusFrame.NeighboursAreRejected` | src/drivers/pzem004t.cpp:66-86 | so is one with a wrong byte or two neighbouring wrong bytes |
| `ModbusFrame.OddErrorsAreRejected` | src/drivers/pzem004t.cpp:66-86 | so is one with an odd number of wrong bits |
| `BufferModel.TakenInOrder` | src/panglos/buffer.h:364-395 | a read takes the oldest pending bytes, each once and in order, exactly as many as asked for or as can be had |
| `BufferModel.ReadyIsAllExactly` | src/panglos/buffer.h:364-395 | everything pending can be read if and only if no byte waits behind a buffer that reading never leaves |
| `BufferRuns.AcceptedIsFitting` | src/panglos/buffer.h:324-395 | in every run from the empty chain, what is accepted is just the bytes of the puts that find room, in order and whatever their values, where the room is counted from the calls alone |
| `BufferRuns.EveryRunIsInOrder` | src/panglos/buffer.h:324-395 | in every such run of adds, new buffers and reads, the bytes read and then the bytes pending are those bytes, in order |
| `BufferRuns.FilledInTurnIsServed` | src/panglos/buffer.h:324-395 | in every run that adds buffers of some size only when there is no room, each read gets exactly as many bytes as it asks for, or all that are pending |
| `BufferRuns.CarefulIsServed` | src/panglos/buffer.h:364-395 | so does every run that leaves no blocking buffer behind a new one |
| `BufferRuns.DammedExactly` | src/panglos/buffer.h:324-395 | a run ends with a dammed chain if and only if it added a buffer behind one that is not full, or has nothing to read |
| `BufferRuns.BlocksExactly` | src/panglos/buffer.h:364-395 | in every run, the buffers that reading does not get past are those not full and those of no size |
| `BufferRuns.DammedForGood` | src/panglos/buffer.h:364-395 | once dammed, a chain stays so in every run, and gives back what was ready and not a byte more |
| `BufferRuns.DryForGood` | src/panglos/buffer.h:380-383 | when its first buffer is dry as well, nothing is ever read again |
| `BufferRuns.RecoverableExactly` | src/panglos/buffer.h:364-395 | some run reads all that was accepted if and only if no byte waits behind a buffer that is empty or not full |
| `BufferRuns.AddedTooSoon` | src/panglos/buffer.h:324-395 | a run that strands a byte for good |
| `BufferChain.Buffer.Add` | src/panglos/buffer.h:225-236 | the byte goes behind the others, or the buffer is full |
| `BufferChain.Buffer.Read` | src/panglos/buffer.h:251-265 | the next unread bytes, up to n, and one even for n below 1 |
| `BufferChain.Deque.PushTail` | src/panglos/deque.h:41-61 | the item goes last, head and tail kept right |
| `BufferChain.Deque.PopHead` | src/panglos/deque.h:63-85 | the first item, if there is one, head and tail kept right |
| `BufferChain.Buffers.AddBuffer` | src/panglos/buffer.h:324-328 | an empty buffer at the end of the linked chain, as a step of the run |
| `BufferChain.Buffers.Add` | src/panglos/buffer.h:330-347 | accepts the byte, whatever it is, exactly if the calls so far leave room in the last buffer, as a step of the run |
| `BufferChain.Buffers.IsFull` | src/panglos/buffer.h:349-362 | true exactly if the calls so far leave no room: no buffer, or a full last one |
| `BufferChain.Buffers.Read` | src/panglos/buffer.h:364-395 | the oldest pending bytes in order, exactly as many as asked for or as can be had, without a limit for a negative length, as a step of the run |
| `BufferChain.Buffers.InOrder` | src/panglos/buffer.h:324-395 | all that was read from the chain, and then all that waits in it, are the bytes of the adds that found room, in order |
| `RingModel.MaskIsModulo` | src/panglos/ring_buffer.h:20 | masking an index of any width is the remainder by the capacity |
| `RingModel.PowerTest` | src/panglos/ring_buffer.h:30 | the constructor's assertion accepts the powers of two and nothing else |
| `RingModel.InStepIsExact` | src/panglos/ring_buffer.h:39-41 | while the counts are in step, size, empty and full are exact, however often the indices have wrapped |
| `RingModel.RunsFollowExactly` | src/panglos/ring_buffer.h:37-41 | a run of a new ring reports and pops at every moment what a bounded queue does if and only if no push finds it full and no pop finds it empty |
| `RingModel.OverrunLosesOldest` | src/panglos/ring_buffer.h:37 | after a push into a full ring the next pop gives the newest value, not the oldest |
| `RingModel.OverrunExample` | src/panglos/ring_buffer.h:37-41 | a run that loses a value and gives another twice, and reports a sound state in between |
| `RingBuffer.RingBuffer.constructor` | src/panglos/ring_buffer.h:22-32 | a capacity that passes the assertion makes a new ring of that many slots |
| `RingBuffer.RingBuffer.Push` | src/panglos/ring_buffer.h:37 | the array and the index do what the ring's value does on a push, guarded or not |
| `RingBuffer.RingBuffer.Pop` | src/panglos/ring_buffer.h:38 | the value popped and the index are those of the ring's value, guarded or not |
| `RingBuffer.RingBuffer.Size` | src/panglos/ring_buffer.h:41 | the wrapped difference of the indices |

## Left out

- Motor: the values of the period table (computed in floating point; they do not affect motion), the speed range checks, `power`, `flush`, `zero` and `set_steps`, which can put the position out of range.
- MotorDriver.Stepper.Settle: the loop is that of a test, and its seek or rotation must be safe because others need not end.
- LinuxQueue: timeouts, which the source ignores, and a queue without a mutex.
- DeviceDriver: the two intrusive lists are sequences that the methods reassign, so links between nodes are not modelled here (they are in `EventList`); a device with no needs list is one with an empty list.
- JSON: `strncpy`, `to_int`, `to_double` and the other conversions, the logging, and which strings and numbers RFC 8259 admits: the parser takes more than the grammar, and so do the printed documents here.
- JsonParser: memory in which a token goes on to the very end, so that the source reads on past it.
- JsonMatcher.Matcher.Check: a name of one character compared with an array's null key, where the source reads through a null pointer, is taken not to match, also in `JsonMatch.DocumentServed`; `JsonKeyPath.NullReadExactly` says exactly when that happens.
- JsonMatcher.Matcher.Receive: the callbacks are taken from the recorded trace of a run, not interleaved with it; the handler always answers OKAY, so the run does not depend on it.
- EventQueues.EvQueue.Run: events whose own `run` changes the queue.
- EventQueues.TimerQueue: `wait_absolute`, which compares raw times, and the semaphores, of which only the order of posts is kept. The subtraction of `timer_cmp` is taken to wrap.
- Events: the 64-bit queue, whose comparison is not part of this model.
- I2C: the delays, clock stretching, `restart`, and all read paths, in which the master acknowledges nothing.
- ModbusFrame: the decoding of an answer's registers.
- BufferChain.Buffers.Add: the branch that adds a buffer by force, which locks its own mutex again and, with the Linux port's plain mutex, never returns; mutexes in general; and `reset`, `write` and `get_size`.
- Drivers, network, command line, displays and number formatting: no state worth modelling, or library calls that cannot be seen.
