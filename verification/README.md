# Verification of the lock gateway

The repository is a gateway in C between an IoT cloud and door locks. This project
models its stateful core and proves what it keeps, over all inputs and all runs:

| files | what they model |
|---|---|
| `Words`, `Sha1Spec`, `Sha1Round`, `Sha1Code`, `Sha1Example`, `Hmac`, `Hotp` | streaming SHA-1, HMAC and the one-time door code against FIPS 180-4 and section 2 of RFC 2104 |
| `ScheduleSpec`, `Schedule`, `RelockSpec`, `RelockDeletion`, `Relock` | the intrusive timer list, its dispatcher with its timer, and the auto-relock of doors |
| `KeyTable`, `DeviceTable`, `ProductSub`, `LockProtocol`, `KeyLifecycle`, `KeyScenarios`, `DeviceLife`, `Afly` | device records, key slots, the database image, the key protocol and the session life of a device |
| `Uproto` | the waiter and the handlers that compete for incoming reports |
| `NxpLocks`, `GatewayMac` | acquisition with rollback, and an in-place filter whose index steps back |
| `MaskCodec`, `FieldWords`, `FieldCodec`, `FieldRoundTrip`, `FieldAbsent` | the field codec over a tree of unsigned fields and bitmap groups |

Each part has the same shape. Functions say what an operation means (`Sha1Spec`,
`ScheduleSpec`, `DeviceTable`, `LockProtocol`, ...). Classes and methods take the steps
of the C code, loops and in-place updates included, and their postconditions tie the new
state to those functions. Lemmas then prove what the system is for about the functions:
invariants over every run, conservation, round trips, refinement of a standard.
Clocks, SDK answers, file presence, `malloc` and `select` results and device types are
inputs, so every theorem holds for all of them.

`dafny verify dfyconfig.toml` checks the whole project.

## Where the code and its purpose part

The code is modelled as written. Where that is not what it is evidently for, one lemma says
exactly when the two agree and another shows a case, reached from an initial state, where
they do not:

- `sha1.c` fixes little-endian loads at compile time. On a big-endian host a message is read
  as the standard says only if every word of the padded message is symmetric
  (`MessageMeetsStandardExactlyWhen`), so no message of a multiple of four bytes is, the two
  behind a one-time code included (`FourByteMessagesMisread`).
- A clear acknowledgement empties key table 0 and never the password table, although it is
  reported as a clear of passwords (`ClearMissesPasswords`, `ClearLeavesPassword`).
- A key the lock refuses stays ADDING; among requests and reports nothing but a later
  success report for the same identifier ends that, and 128 such keys block every further
  request (`UnconfirmedKeyStays`, `PiledUpKeysBlockRequests`, `RequestsPileUp`).
- Key identifiers are `1000000 * type + number`, and one password may be requested twice.
  After an accepted request the lock's success report is honoured exactly when the number is
  below 1000000 or in 3000000..3999999 and, in addition, the last key with the same identifier
  is none, or sits before the slot the request takes, or is itself still ADDING
  (`AckActivatesExactlyWhen`). The accepted password 1000000 fails the first part
  (`MillionOutOfBand`); the same password requested and confirmed twice, deleted and
  requested again fails the second (`TwinBlocksReport`). Where the identifier overflows an
  `int`, whatever value the undefined arithmetic gives decides instead of the number.
- With two keys of one identifier, lookup takes the last slot, and completion and deletion
  the first. The notification of an added key describes the key that was activated exactly
  when the two have the same text (`SessionNoteDescribesExactlyWhen`); six and seven zeros do
  not (`TwinMisdescribed`, `ZerosAreTwins`). A delete report is honoured exactly when the last
  one is ADDED (`DeleteReportHonouredExactlyWhen`, `TwinBlocksDeletion`).
- `product_sub_get_i` is right exactly when the used records come first
  (`GetIRightExactlyWhen`, `EnumerationRightExactlyWhen`); after two devices are added and the
  first is deleted it does not find the other (`GapHidesDevice`).
- Deleting a device zeroes its timer node. That is safe exactly when the node is not in the
  list (`DeleteSafeExactlyWhenNotPending`). Otherwise the list ends at the zeroed node, and the
  dispatcher calls a null function the next time its timer fires, exactly unless the same
  record has reported an open door first, when nothing else is deleted before that
  (`UncleanDeletionCrashesExactlyUnlessReopened`);
  over whole runs, null is called exactly when the timer fires with a zeroed node in the list
  (`RunCrashesExactlyWhen`). If the program does go on, doors that were queued behind the
  deleted one have lost their tasks and stay open (`DeletionDropsLaterTasks`,
  `LostTaskNeverRelocks`). Two opened doors and the deletion of the first device show both
  outcomes (`OpenOpenDelete`).
- A matching report without a value is kept from the handlers and not returned either
  (`NothingLostExactlyWhen`, `ValuelessReportLost`).
- A second `lock_init` leaks exactly the resources of the entries it overwrites
  (`ReinitLeaksExactly`, `InitTwice`).
- An SDK id of 0 leaves a record logged in without an id exactly when the device is online
  and the login succeeds (`IdZeroBreaksExactlyWhen`, `IdZeroFromTheStart`).
- Only four mask bits are scanned, and the fourth byte of a word is shifted as a signed
  int: `RecoversExactlyWhen` gives the values that survive the field codec, `ValuesLost` two
  that do not. A field absent from an object does no harm at the end
  (`TrailingAbsentHarmless`); in front of others it does, exactly when they take at least its
  width (`LeadingAbsentHarmlessExactlyWhen`).

## Model

| member | source | states |
|---|---|---|
| Sha1Spec.ZeroCountIsLeast | rbx/src/sha1.c:314-323 | the zero padding is the least that brings the length to 56 modulo 64, as section 5.1.1 of FIPS 180-4 words it |
| Sha1Example.AbcDigest | rbx/src/sha1.c:226-333 | the SHA-1 of the one-block example message of FIPS 180 is a9993e36 4706816a ba3e2571 7850c26c 9cd0d89d, every schedule word and round by value |
| Words.BigEndian64Is | rbx/src/sha1.c:324-331 | the length field is the eight base-256 digits of the bit length modulo 2^64, most significant first |
| Sha1Round.R32IsRotate | rbx/src/sha1.c:85 | the shift-or macro is the left rotation of the standard for the three distances used |
| Sha1Round.ChoiceAndMajority | rbx/src/sha1.c:70-73 | f1 and f3, written with inclusive or, are Ch and Maj of section 4.1.1, written with exclusive or |
| Sha1Round.PlainRound | rbx/src/sha1.c:70-90 | FG with the macro argument of step t is round t of section 6.1.2 |
| Sha1Round.UnravelledText | rbx/src/sha1.c:187-194 | all eighty macro calls of the unravelled text follow the six-step role cycle with the function group of their step |
| Sha1Round.RolesAdvance | rbx/src/sha1.c:88-109 | each of FA to FT, run where its turn is, does one FG step on the variables that hold the roles A to E |
| Sha1Round.UnravelledAgrees | rbx/src/sha1.c:186-194 | after any number of steps the unravelled text holds the same five words as the plain rounds, in the rotated variables |
| Sha1Round.UnravelledFinal | rbx/src/sha1.c:195-199 | after eighty steps the roles A to E are in E, T, A, B, C, as the final additions assume |
| Sha1Code.LoadedWordOrder | rbx/src/sha1.c:123-133 | the swapping load reads message words most significant byte first on a little-endian host and reversed on a big-endian one |
| Sha1Code.LoadMeetsStandardExactlyWhen | rbx/src/sha1.c:50-63 | with the byte order fixed to 1234 the words are those of the standard exactly on a little-endian host or for blocks symmetric in every word |
| Sha1Code.MessageMeetsStandardExactlyWhen | rbx/src/sha1.c:50-63 | all blocks of a padded message are loaded as the standard says exactly on a little-endian host or if every word of it is symmetric |
| Sha1Code.FourByteMessagesMisread | rbx/src/sha1.c:50-63 | so on a big-endian host no message of a multiple of four bytes is |
| Sha1Code.CountIs64Bit | rbx/src/sha1.c:247-252 | the carry test and the two shifts on the 32-bit halves are 64-bit addition of eight times the count |
| Sha1Code.CounterTracks | rbx/src/sha1.c:247-252 | a counter that is the bit length modulo 2^64 stays so |
| Sha1Code.LengthField | rbx/src/sha1.c:324-331 | the eight byte stores from the two halves are the big-endian length field of section 5.1.1 |
| Sha1Code.PendingFromCounter | rbx/src/sha1.c:312-314 | the position recovered from the bit counter is the number of pending bytes |
| Sha1Code.PadSlices | rbx/src/sha1.c:315-331 | where the tail, the 0x80 byte, the zeros and the length fall in one or two last blocks, in both cases of the branch |
| Sha1Code.FgLoops | rbx/src/sha1.c:211-214 | the four loops compute all eighty rounds of the standard |
| Sha1Code.Sha1Info.Init | rbx/src/sha1.c:226-237 | the object represents the empty message |
| Sha1Code.Sha1Info.SwapIn | rbx/src/sha1.c:123-133 | the first sixteen schedule words of the buffered block |
| Sha1Code.Sha1Info.Extend | rbx/src/sha1.c:176-179 | the other sixty-four words of the message schedule |
| Sha1Code.Sha1Info.Transform | rbx/src/sha1.c:112-222 | the digest becomes the compression of its old value with the buffered block |
| Sha1Code.Sha1Info.TransformUnravelled | rbx/src/sha1.c:185-199 | the UNRAVEL build computes the same digest |
| Sha1Code.Sha1Info.CountBytes | rbx/src/sha1.c:247-252 | the counters follow the message length |
| Sha1Code.Sha1Info.TopUp | rbx/src/sha1.c:253-267 | a pending block is completed as far as the input goes, and absorbed once full |
| Sha1Code.Sha1Info.TakeBlocks | rbx/src/sha1.c:268-275 | whole blocks are absorbed in order and the tail is buffered |
| Sha1Code.Sha1Info.Update | rbx/src/sha1.c:241-276 | whatever the split of the input, the object then represents the message so far with the new bytes appended: digest, both counters, buffer and position |
| Sha1Code.Sha1Info.PadRoom | rbx/src/sha1.c:320-323 | with room for the length the rest of the block is zeroed |
| Sha1Code.Sha1Info.PadNoRoom | rbx/src/sha1.c:316-319 | without room the block is completed, absorbed, and followed by zeros |
| Sha1Code.Sha1Info.PadZeros | rbx/src/sha1.c:312-323 | both cases leave all but the last eight bytes of the padded message in the object |
| Sha1Code.Sha1Info.Final | rbx/src/sha1.c:306-333 | the twenty bytes are the hash of the whole message |
| Sha1Code.Sha1Info.StoreDigest | rbx/src/sha1.c:283-302 | the digest words are stored most significant byte first |
| Hmac.HashChunks | rbx/src/sha1.c:226-333 | for every list of chunks, init, one update each and final give the one-shot SHA-1 of their concatenation |
| Hmac.PadByteIsXoredZero | rbx/src/hmac.c:23-30 | filling up with the pad byte is the zero-extended key under XOR |
| Hmac.FillKey | rbx/src/hmac.c:24-44 | the key loop and the memset give K XOR pad of RFC 2104 |
| Hmac.KeyedDigest | rbx/src/hmac.c:33-50 | init, two updates and final hash the padded key followed by the text |
| Hmac.HmacSha1 | rbx/src/hmac.c:5-57 | for every key, text and result length: the HMAC of RFC 2104, keys over 64 bytes hashed first, cut or zero-extended to the result length |
| Hmac.HmacInBytes | rbx/src/hmac.c:23-50 | for a key of at most 64 bytes the inner and outer block are the key byte by byte exclusive-or 0x36 and 0x5c, with these bytes beyond its end |
| Hmac.FitInBytes | rbx/src/hmac.c:53-57 | byte i of the result is byte i of the code below twenty and zero from there on |
| Hmac.LongKeyIsItsDigest | rbx/src/hmac.c:9-18 | a key over 64 bytes and its digest are interchangeable |
| Hmac.TrailingZerosImmaterial | rbx/src/hmac.c:23-30 | trailing zero bytes in a key of at most 64 bytes do not change the result |
| Hotp.SwappedIsNetworkOrder | rbx/src/afly.c:415-452 | after the conditional swap the word lies in memory most significant byte first on either kind of host |
| Hotp.SameBytesOnEitherHost | rbx/src/afly.c:444-461 | the bytes hashed are big-endian seed and mac, and big-endian counter, whichever order the run-time test finds |
| Hotp.FirstFour | rbx/src/afly.c:462-465 | the shift loop packs the first four digest bytes |
| Hotp.TopBitDropped | rbx/src/afly.c:467 | the mask drops the top bit and nothing else |
| Words.PackNat | rbx/src/afly.c:462-465 | four bytes packed are the number they make in base 256, the first weighing most |
| Hotp.TruncateInIntegers | rbx/src/afly.c:462-468 | the code of a digest is ((d0 mod 128) 2^24 + d1 2^16 + d2 2^8 + d3) mod 1000000 |
| Hotp.TopBitIrrelevant | rbx/src/afly.c:467 | flipping the top bit of the digest does not change the code |
| Hotp.CodeFromBytes | rbx/src/afly.c:454-472 | the whole code from the bytes of seed, counter and mac, as that number of the HMAC of the counter under seed and mac |
| Hotp.GetHotp | rbx/src/afly.c:428-473 | the code is the top 31-bit truncation of that HMAC modulo one million, hence below it |
| ScheduleSpec.AddKeeps | rbx/src/schedule.c:46-57 | adding keeps tasks distinct, makes the task pending with the new entry and leaves every other one |
| ScheduleSpec.DelKeeps | rbx/src/schedule.c:89-110 | deleting removes that task's entry only |
| ScheduleSpec.DelUndoesAdd | rbx/src/schedule.c:28-110 | deleting a task just appended restores the list with its order |
| ScheduleSpec.AddPlaces | rbx/src/schedule.c:46-57 | an absent task goes to the end and a present one keeps its place, due ms from now, all others where they were |
| ScheduleSpec.DelPlaces | rbx/src/schedule.c:89-110 | the entries behind a deleted one move up by one, in order |
| ScheduleSpec.DispatchPlaces | rbx/src/afly.c:181-186 | with something due the last entry of least start plus delt is taken out and called |
| ScheduleSpec.ZeroedPlaces | rbx/src/product_sub.c:75 | a zeroed node keeps its place and ends the list |
| ScheduleSpec.FirstIsUnique | rbx/src/schedule.c:59-72 | there is one last entry of least deadline |
| ScheduleSpec.StepKeepsGood | rbx/src/afly.c:175-194 | add, delete, tick and dispatch each keep: no call early, none while another was due before it, no more calls than adds |
| ScheduleSpec.EveryRunIsGood | rbx/src/afly.c:175-194 | so in every interleaving from the empty list, callbacks that add themselves again included |
| ScheduleSpec.DispatchRunsSomethingDue | rbx/src/afly.c:176-186 | a dispatch calls something exactly when something is due |
| Schedule.TaskList.Search | rbx/src/schedule.c:15-26 | the node itself if it is on the list, else null |
| Schedule.TaskList.Append | rbx/src/schedule.c:28-44 | an absent node goes to the end of the acyclic list |
| Schedule.TaskList.Add | rbx/src/schedule.c:46-57 | the list afterwards represents the old queue with the task appended if absent, or its deadline reset in place |
| Schedule.TaskList.FirstTaskToExec | rbx/src/schedule.c:59-72 | the last node of least deadline, or null for an empty list |
| Schedule.TaskList.FirstTaskDelay | rbx/src/schedule.c:74-86 | -1 exactly for an empty list, 0 exactly when something is due, else the exact time to the next deadline |
| Schedule.TaskList.Del | rbx/src/schedule.c:89-110 | exactly that node is unlinked and the order of the rest kept |
| Schedule.TaskList.ZeroNode | rbx/src/product_sub.c:73-76 | zeroing a node that is linked ends the list there |
| RelockSpec.OpenKeepsInv | rbx/src/afly.c:1923-1929 | an open event keeps: lock_status is 1 exactly while the task is pending, and no deadline is earlier than promised |
| RelockSpec.OpenEvent | rbx/src/afly.c:1923-1929 | an open event sets this lock_status to 1 and the task due 5000 ms after the post, and touches no other door or task |
| RelockSpec.DoorTask | rbx/src/afly.c:1810-1815 | the dispatched task of a door clears that lock_status and no other, and is off the list |
| RelockSpec.GatewayTask | rbx/src/afly.c:68-87 | the gateway's own task is added again behind the others, due in 1200000 ms, or in 1000 if the network was not ready |
| RelockSpec.StartEvent | rbx/src/afly.c:115-117 | at the start that task alone is scheduled, due in 1000 ms, and the timer with it |
| RelockSpec.DeleteAndWait | rbx/src/product_sub.c:73-76 | a deletion clears this lock_status and leaves time, timer, the other doors and, if the task is not pending, the list |
| RelockSpec.TaskRunKeepsInv | rbx/src/afly.c:175-194 | so does a dispatcher run, whichever callback it calls |
| RelockSpec.StepKeepsInv | rbx/src/afly.c:1810-1815 | so does every event but the deletion of a pending task |
| RelockSpec.DeleteSafeExactlyWhenNotPending | rbx/src/product_sub.c:73-76 | deleting a record keeps the gateway sound exactly when its task is not in the list |
| RelockSpec.OpenExactlyWhilePending | rbx/src/afly.c:1923-1929 | in every run with clean deletions, lock_status is 1 exactly while the device's task is in the list |
| RelockSpec.TimerNeverLate | rbx/src/afly.c:188-193 | in every run with clean deletions a nonempty list has the timer armed no later than its least deadline, expired once that has passed, and otherwise at a deadline of the list |
| RelockSpec.RelocksNotBeforeTime | rbx/src/afly.c:1810-1815 | lock_status falls only in a dispatcher run and at least 5000 ms after the latest open event |
| RelockSpec.RunRelocksNotBeforeTime | rbx/src/afly.c:1990-1997 | the same at the end of every run from all doors closed |
| RelockSpec.TaskRunServesOne | rbx/src/afly.c:175-194 | a dispatcher run with something due leaves exactly one due entry fewer, although the gateway's own task adds itself again |
| RelockSpec.DueTasksAreServed | rbx/src/afly.c:175-194 | as many dispatcher runs as there are due entries leave nothing due |
| RelockSpec.DueDoorsRelock | rbx/src/afly.c:1810-1815 | and then no door is open past its deadline |
| RelockSpec.DeletionDropsLaterTasks | rbx/src/product_sub.c:75 | deleting a device whose task is pending loses the tasks queued behind it while those doors report open |
| RelockSpec.LostTaskNeverRelocks | rbx/src/product_sub.c:75 | as long as the program has not called null, such a door reports open through every run that neither opens nor deletes it |
| RelockDeletion.NullCallExactlyWhen | rbx/src/afly.c:181-186 | in every reachable state the dispatcher calls a null function exactly when a zeroed node is in the list |
| RelockDeletion.RunCrashesExactlyWhen | rbx/src/afly.c:175-194 | in every run from all doors closed, null is called exactly when the timer fires while a zeroed node is in the list, and never if all deletions are clean |
| RelockDeletion.UncleanDeletionCrashesExactlyUnlessReopened | rbx/src/product_sub.c:73-76 | after the deletion of a device whose task is pending, with no further deletion the next firing calls null exactly unless the same record reported an open door in between |
| RelockDeletion.OpenOpenDelete | rbx/src/product_sub.c:73-76 | two opened doors and the first device deleted: the next firing calls null, or, with that record opened again, the second door stays open without a task |
| Relock.RelockGateway.AddTask | rbx/src/schedule.c:46-57 | adding on the linked list is adding on its view |
| Relock.RelockGateway.Arm | libs/osi/src/timer.c:40-58 | the one-shot timer is set to the least deadline, or to now if that is past, replacing what was set |
| Relock.RelockGateway.Init | rbx/src/afly.c:115-117 | the start step: the gateway's own task and the timer |
| Relock.RelockGateway.OpenDoor | rbx/src/afly.c:1923-1929 | the handler takes the open step of the state machine, the timer set included |
| Relock.RelockGateway.Free | rbx/src/product_sub.c:73-76 | product_sub_free takes the delete step |
| Relock.RelockGateway.TakeFirst | rbx/src/afly.c:182-183 | the node chosen and unlinked is the view's dispatch |
| Relock.RelockGateway.Call | rbx/src/afly.c:186 | the call through the function pointer is the callback of the view; through a zeroed node it ends the program |
| Relock.RelockGateway.HandlerTaskRun | rbx/src/afly.c:175-194 | the dispatcher takes the task-run step: at most one call, and the timer set to the least deadline left or not at all for an empty list |
| KeyTable.CountsSum | rbx/inc/product_sub.h:16-20 | every slot is in exactly one of the three states |
| KeyTable.TableOfType | rbx/src/product_sub.c:446-461 | types 1, 2, 3 and 5 have tables 0 to 3, every other type table 0 |
| KeyTable.AddedSlotsComplete | rbx/src/product_sub.c:481-508 | the enumeration of ADDED slots misses none |
| DeviceTable.GetIRightExactlyWhen | rbx/src/product_sub.c:383-405 | get_i returns the i-th used record exactly when all records up to i are in use |
| DeviceTable.EnumerationRightExactlyWhen | rbx/src/product_sub.c:383-405 | the whole enumeration is right exactly when the used records come first |
| DeviceTable.GapHidesDevice | rbx/src/product_sub.c:383-405 | two devices added and the first deleted: the other is the only one and get_i(0) is NULL |
| DeviceTable.GetINeverUnused | rbx/src/product_sub.c:383-407 | NULL beyond the number of used records, and never an unused record |
| DeviceTable.AddNewDevice | rbx/src/product_sub.c:321-345 | a new name is found afterwards in the first record that was free, with this key and secret, ids, status and keys cleared, the other records unchanged |
| DeviceTable.AddNewDeviceSaved | rbx/src/product_sub.c:345 | and the file has that record as it is in memory |
| DeviceTable.AddKnownDevice | rbx/src/product_sub.c:310-319 | a known name gets product key and secret, unsaved, and nothing else changes |
| DeviceTable.AddToFullTable | rbx/src/product_sub.c:321-324 | with no record free nothing changes |
| DeviceTable.DelDevice | rbx/src/product_sub.c:348-359 | every field of the deleted record is zero in memory and file, the other records unchanged |
| DeviceTable.LoadedRecords | rbx/src/product_sub.c:79-153 | a load takes every record as stored but for login and devid of used ones; without a file 40 unused records are written |
| DeviceTable.ClearedTable | rbx/src/product_sub.c:632-649 | clearing leaves no key in the type's table, and every other table and field as it was |
| DeviceTable.ClearedAll | rbx/src/product_sub.c:637-646 | clearing and saving slot by slot ends where one save of the emptied table does |
| DeviceTable.DoKeepsSynced | rbx/src/product_sub.c:178-201 | every table operation keeps the ADDED keys of the stored image equal to those in memory, slot by slot |
| DeviceTable.RunKeepsSynced | rbx/src/product_sub.c:101-201 | so at the end of every run of operations |
| DeviceTable.ReloadRestoresActiveKeys | rbx/src/product_sub.c:79-153 | a reload after any run since the last load gives the same devices and exactly the same ADDED keys, with login and devid 0 in used records |
| ProductSub.ProductSub.Malloc | rbx/src/product_sub.c:61-72 | the first unused record |
| ProductSub.ProductSub.SearchByName | rbx/src/product_sub.c:268-286 | the first used record with the name |
| ProductSub.ProductSub.Save | rbx/src/product_sub.c:178-201 | one record goes to its place in the image; -2 without a file |
| ProductSub.ProductSub.Add | rbx/src/product_sub.c:309-346 | known names get a new key and secret unsaved, new names the first free record, saved; the return codes of all branches |
| ProductSub.ProductSub.Del | rbx/src/product_sub.c:348-359 | the record of that name is zeroed in memory and in the image |
| ProductSub.ProductSub.LoadAll | rbx/src/product_sub.c:101-153 | the image with login and devid cleared in used records, or a zeroed table that is also written |
| ProductSub.ProductSub.Clr | rbx/src/product_sub.c:362-365 | everything zero in memory and image |
| ProductSub.ProductSub.GetNum | rbx/src/product_sub.c:367-382 | the number of used records |
| ProductSub.ProductSub.GetI | rbx/src/product_sub.c:383-407 | for every i what the loop over the fixed record i gives |
| ProductSub.ProductSub.GetKeyNum | rbx/src/product_sub.c:462-479 | the number of ADDED slots of the table |
| ProductSub.ProductSub.GetKeyI | rbx/src/product_sub.c:481-508 | the i-th ADDED slot in physical order, NULL for every other i |
| ProductSub.ProductSub.GetKeyById | rbx/src/product_sub.c:664-684 | the last slot in use with the id |
| ProductSub.ProductSub.AddKeyWaitAck | rbx/src/product_sub.c:510-548 | the first NONE slot becomes ADDING with id, type, limit and text of the request, or nothing changes when there is none |
| ProductSub.ProductSub.AddKeyComplete | rbx/src/product_sub.c:550-579 | the first ADDING slot with the id becomes ADDED and the record is saved; -1 exactly when there is none |
| ProductSub.ProductSub.DelKey | rbx/src/product_sub.c:581-610 | the first ADDED slot with the id is zeroed and the record saved; -1 exactly when there is none |
| ProductSub.ProductSub.ClrKey | rbx/src/product_sub.c:632-649 | every key in use of the table is zeroed, in memory and image |
| LockProtocol.NoteMatchesOneSlot | rbx/src/afly.c:2001-2036 | a KeyAdded notification comes with exactly one slot of that id going ADDING to ADDED, a KeyDeleted one with one going ADDED to NONE; without a notification no key changes |
| LockProtocol.OthersSpared | rbx/src/afly.c:1962-2036 | without a notification about a password, no message changes the password table |
| LockProtocol.AtoiReadsDecimal | rbx/src/product_sub.c:540 | atoi reads every decimal numeral, with zeros in front, up to a comma or the end |
| LockProtocol.IdsTellTextsApart | rbx/src/product_sub.c:540 | passwords of digits only and of one length have equal ids exactly when equal |
| LockProtocol.RefusedExactlyWhen | rbx/src/afly.c:252-298 | which return code a request gets, from -2 to -6 or 0, in terms of its type, limit, text and the free slots; a refusal changes nothing |
| LockProtocol.KeyOfRequest | rbx/src/product_sub.c:536-545 | every field of the key an accepted request leaves |
| LockProtocol.ClassifiedByMillion | rbx/src/afly.c:1946-1959 | the type read off every identifier, by its million |
| LockProtocol.OneKeyOpening | rbx/src/afly.c:1979-1999 | the report 888888 sets lock_status to 1 in memory and nothing else |
| LockProtocol.DynamicConfirmed | rbx/src/afly.c:1973-1977 | the report 999999 sets dynamic to 1, saved, and nothing else |
| LockProtocol.IgnoredReports | rbx/src/afly.c:1957-2039 | failed reports, other operations and identifiers of no type change nothing and are not notified |
| LockProtocol.HandleKeepsSynced | rbx/src/afly.c:1938-2042 | every acknowledgement keeps the stored image in step |
| LockProtocol.StepKeepsBalance | rbx/src/afly.c:1938-2042 | each request and acknowledgement moves the counts as its notification says |
| LockProtocol.KeysAreConserved | rbx/src/afly.c:1938-2042 | in every session from an empty password table, whatever the other tables hold: ADDED slots are KeyAdded minus KeyDeleted notifications about passwords, slots in use are accepted requests minus KeyDeleted, and the three counts sum to 128, also when slots share an id |
| KeyLifecycle.ClassifiedExactlyWhenInBand | rbx/src/afly.c:1947-1959 | the id made from a password is recognised as a password exactly when its number is in the band, or, where int overflows, by the id the arithmetic gives |
| KeyLifecycle.AcceptedRequest | rbx/src/product_sub.c:520-545 | an accepted request puts its key into the first free slot, ADDING |
| KeyLifecycle.AddReportHonouredExactlyWhen | rbx/src/afly.c:2001-2036 | a success report for an awaited id is honoured exactly when the last slot in use with it is ADDING, and then activates the first ADDING one |
| KeyLifecycle.AckActivatesExactlyWhen | rbx/src/product_sub.c:540 | after every accepted request the success report activates a key of that id, and is notified as a password, exactly when the id is recognised and the last earlier key with it is none, before the slot taken, or ADDING; otherwise the password table stays as the request left it; the key activated is the one requested exactly when no earlier twin was ADDING |
| KeyLifecycle.AddThenDeleteRestores | rbx/src/afly.c:2019-2036 | for a recognised id not in use: request, success report and delete report leave every key table as it was |
| KeyLifecycle.RunKeepsFreeZero | rbx/src/product_sub.c:606-607 | in every session free slots hold nothing of earlier keys |
| KeyLifecycle.ClearMissesPasswords | rbx/src/afly.c:1962-1971 | a clear acknowledgement empties table 0 and leaves the password table as it was |
| KeyLifecycle.UnconfirmedKeyStays | rbx/src/afly.c:2037-2039 | a key that is not confirmed keeps its slot through every session |
| KeyLifecycle.PiledUpKeysBlockRequests | rbx/src/afly.c:2037-2039 | with 128 unconfirmed keys no request is ever accepted again, valid ones get -6 |
| KeyLifecycle.NoteDescribesActivatedSlotExactlyWhen | rbx/src/afly.c:2001-2027 | the notification carries limit and text of the slot it activated exactly when that slot and the last one in use with the id agree in them |
| KeyLifecycle.SessionNoteDescribesExactlyWhen | rbx/src/afly.c:2001-2027 | in every session from an empty password table that is exactly when the two have the same text |
| KeyLifecycle.DeleteReportHonouredExactlyWhen | rbx/src/afly.c:2001-2010 | a delete report removes an active key exactly when the last slot in use with its id is ADDED |
| KeyScenarios.TwinBlocksReport | rbx/src/afly.c:2006-2010 | a password requested and confirmed twice, deleted and requested again: the success report is ignored and the new key stays ADDING |
| KeyScenarios.TwinBlocksDeletion | rbx/src/afly.c:2006-2010 | a password confirmed and requested again: its delete report is ignored |
| KeyScenarios.TwinMisdescribed | rbx/src/afly.c:2013-2028 | two texts with one id: the first key activated is notified with the text of the second |
| KeyScenarios.ZerosAreTwins | rbx/src/product_sub.c:540 | six and seven zeros are two such texts |
| KeyScenarios.MillionOutOfBand | rbx/src/product_sub.c:540 | the password 1000000 is accepted and its success report leaves it ADDING |
| KeyScenarios.ClearLeavesPassword | rbx/src/afly.c:1962-1971 | a confirmed password is still ADDED after a clear notified as one of passwords |
| KeyScenarios.RequestsPileUp | rbx/src/afly.c:2037-2039 | after 128 unconfirmed requests the next gets -6, also after a failure report |
| DeviceLife.RegKeeps | rbx/src/afly.c:1578-1682 | a registration report keeps names distinct, ids behind logins, and logins and logouts in turn |
| DeviceLife.UptKeeps | rbx/src/afly.c:1748-1791 | so does a status report |
| DeviceLife.StatusReport | rbx/src/afly.c:1748-1791 | a status report of a registered device: login exactly when it is online and logged out, logout exactly when offline and logged in, the flag by the SDK's answer; the fields it stores and saves, and nothing else |
| DeviceLife.StatusReportIgnored | rbx/src/afly.c:1748-1757 | from an unknown or unregistered device it does nothing |
| DeviceLife.AgreedReport | rbx/src/afly.c:1775-1791 | when the SDK agrees the device is logged in afterwards exactly if it is online |
| DeviceLife.RegistrationReport | rbx/src/afly.c:1614-1682 | the same for a registration report, with the id, the fields, the seed and the interval of 1800 s |
| DeviceLife.RegistrationRefused | rbx/src/afly.c:1619-1633 | when the SDK refuses, nothing changes for a known device |
| DeviceLife.RegistrationOfNew | rbx/src/afly.c:1582-1602 | a new device is added first with the product key and no secret; without a key or a free record nothing changes |
| DeviceLife.RemovalReport | rbx/src/afly.c:1697-1735 | a known device is deleted exactly when it is registered and the SDK destroys and unregisters it |
| DeviceLife.StepKeepsInv | rbx/src/afly.c:1578-1803 | so does every event of a device's life, removal, cloud add and restart included |
| DeviceLife.LivesAreOrderly | rbx/src/afly.c:1578-1803 | in every run from a start with or without a database: names of used records are distinct, login 1 implies a nonzero devid, and successful logins and logouts strictly alternate within a record's life |
| DeviceLife.IdZeroBreaksExactlyWhen | rbx/src/afly.c:1627-1682 | for an id 0 from the SDK a record ends logged in without an id exactly when online and the login succeeds |
| DeviceLife.IdZeroFromTheStart | rbx/src/afly.c:1627-1682 | the first report of a new online device with id 0 ends so |
| Afly.ValidPasswordString | rbx/src/product_sub.c:696-711 | 6 to 15 characters, all digits or commas |
| Afly.SubdevAddKey | rbx/src/afly.c:252-318 | the new store and the return code of every branch |
| Afly.RptAddDelPass | rbx/src/afly.c:1938-2042 | the handler's store and notification are those of the protocol |
| Afly.RptKey | rbx/src/afly.c:2001-2039 | its key branch: lookup, state check, completion or deletion |
| Afly.KeyList | rbx/src/afly.c:539-557 | the loop reports every ADDED slot once, in slot order |
| Afly.ListedExactlyWhenAdded | rbx/src/afly.c:539-557 | a key is in the list exactly when some slot holds it ADDED |
| Afly.SessionBlock | rbx/src/afly.c:1666-1682 | log in when online and out when not, only on a change, keeping the flag in step with the SDK's answer |
| Afly.NxpReg | rbx/src/afly.c:1578-1682 | store and session calls of a registration report, every early return included |
| Afly.NxpUptOnline | rbx/src/afly.c:1741-1791 | the same for a status report |
| Afly.NxpUnreg | rbx/src/afly.c:1694-1739 | the record goes only when the SDK agreed twice |
| Uproto.EachPacketGoesOneWay | rbx/src/uproto.c:330-344 | each accepted packet goes to exactly one of the waiter and the handlers |
| Uproto.NothingLostExactlyWhen | rbx/src/uproto.c:331-340 | the waiter keeps only the packet it returns exactly when no matching report without a value came before |
| Uproto.RunsShareAllPackets | rbx/src/uproto.c:269-349 | in every run of loose packets and waits, without nested waits, handlers and waiters together get every accepted packet exactly once |
| Uproto.NothingKeptOutsideWaits | rbx/src/uproto.c:330-344 | without a wait the handlers get all accepted packets, in order |
| Uproto.Uproto.HandleAlink | rbx/src/uproto.c:269-349 | captured exactly when waiting, unanswered and matching; handled exactly when accepted and not captured; nothing is captured outside a wait |
| Uproto.HandedOnExactlyWhen | rbx/src/uproto.c:278-307 | outside a wait a packet is handed on exactly when it comes from ZB3 or NXP, is for CLOUD, is a cmdResult or reportAttribute and has data |
| Uproto.HandleLoose | rbx/src/uproto.c:278-343 | as the handler does |
| Uproto.HandleAwaited | rbx/src/uproto.c:330-344 | during a wait a packet is kept back exactly when, in addition, it is a reportAttribute on that attribute, from that mac if one is given, and there is no answer yet |
| Uproto.AnswerIsFirst | rbx/src/uproto.c:477-525 | the answer is the first such report with a value |
| Uproto.Uproto.WaitResponse | rbx/src/uproto.c:477-525 | the wait returns the first report accepted during it that matches the attribute, and the mac if given, or NULL if there was none, stops as soon as it has it, and leaves no trace in the statics |
| Uproto.Serve | rbx/src/uproto.c:269-525 | a whole run through the class hands over and returns exactly what the run functions say |
| Uproto.ValuelessReportLost | rbx/src/uproto.c:331-340 | a matching report without a value before the answer reaches neither handlers nor caller |
| NxpLocks.Locks.Acquire | rb/nxp.c:156-189 | one lock: all four resources, or none of them whichever step fails |
| NxpLocks.SucceedsExactlyWhen | rb/nxp.c:156-187 | a lock is acquired exactly when memory, registration, creation and login all succeed |
| NxpLocks.HeldByOne | rb/nxp.c:156-189 | it then holds a block, a registration, a device and a session |
| NxpLocks.NameIsCut | rb/nxp.c:164-165 | its name is the configured one cut to 31 and 63 characters |
| NxpLocks.Locks.LockInit | rb/nxp.c:152-193 | for any number of locks and any answers: exactly the locks before the first failure are live, and what is held in addition is exactly their resources |
| NxpLocks.Locks.LockExit | rb/nxp.c:195-212 | everything the entries hold is released, each once, and the entries are empty |
| NxpLocks.InitThenExit | rb/nxp.c:152-212 | init from empty entries and then exit restore the SDK and heap state |
| NxpLocks.InitHoldsLive | rb/nxp.c:152-193 | so the resources held are exactly those of the non-NULL entries |
| NxpLocks.ReinitLeaksExactly | rb/nxp.c:189 | a second init leaks exactly the resources of the entries it overwrites, so nothing exactly when they were empty |
| NxpLocks.InitTwice | rb/nxp.c:152-193 | two calls in a row that succeed leave the resources of all locks held twice |
| GatewayMac.FilteredIsTheRest | rb/linkkit.c:314-326 | the filtered text has no colon and every other character as often as before |
| GatewayMac.FilteredSplit | rb/linkkit.c:314-326 | filtering goes piece by piece, so the order is kept |
| GatewayMac.ShiftLeft | rb/linkkit.c:320-323 | the inner loop moves the rest, terminator included, down by one and touches nothing else |
| GatewayMac.StripColons | rb/linkkit.c:314-326 | although its index steps back the loop ends, stays in bounds, and leaves the input without colons, in order and terminated |
| GatewayMac.GatewayMacText | rb/linkkit.c:306-332 | the address handed out is 0000 and the filtered text |
| MaskCodec.GatherScatterModulo | rbx/src/afly_profile.c:556-567 | for every width, mask and old value clear on it: gathering after scattering gives the value modulo 2^popcount |
| MaskCodec.FitsExactlyWhen | rbx/src/afly_profile.c:556-567 | so the value comes back exactly when it is below that |
| MaskCodec.DisjointUndisturbed | rbx/src/afly_profile.c:833-847 | scattering under one mask does not disturb what a disjoint mask gathers |
| MaskCodec.OutsideUnchanged | rbx/src/afly_profile.c:833-847 | bits outside the mask or beyond the width stay |
| MaskCodec.GatherBit | rbx/src/afly_profile.c:562-565 | the value bit under a mask bit is gathered to the place counted by the mask bits below |
| MaskCodec.ScatterBit | rbx/src/afly_profile.c:840-844 | under a mask bit the next value bit is or-ed in, every other bit stays |
| MaskCodec.FourBitsScanned | rbx/src/afly_profile.c:558 | just the four lowest mask bits count |
| MaskCodec.B2JMask | rbx/src/afly_profile.c:556-567 | the downward loop is gathering over the four bits scanned |
| MaskCodec.OrBitAdds | rbx/src/afly_profile.c:842 | setting bit i by or adds 2^i when it was clear and is to be set |
| MaskCodec.J2BUnmask | rbx/src/afly_profile.c:833-847 | the loop over two indices is scattering over the four bits scanned |
| FieldWords.LoadWord | rbx/src/afly_profile.c:577-580 | the loop gives the little-endian value, with the sign of the fourth byte spread over the upper half |
| FieldWords.StoreWord | rbx/src/afly_profile.c:864-866 | the loop stores the low bytes, lowest first, and nothing else |
| FieldWords.LoadedStored | rbx/src/afly_profile.c:577-580 | what loading gives of a stored value |
| FieldWords.KeptExactlyWhen | rbx/src/afly_profile.c:579 | storing and loading is exact for every value that fits one to three bytes, and in four bytes exactly below 2^31 or in the top 2^31 of 64 bits |
| FieldWords.KeptByWidth | rbx/src/afly_profile.c:579 | the same with the bounds of each width as numbers |
| FieldWords.LowestFirst | rbx/src/afly_profile.c:864-866 | the bytes of a word of each width, lowest first |
| FieldCodec.ParseBuf2Json | rbx/src/afly_profile.c:569-589 | one field read, or nothing when the buffer is too short |
| FieldCodec.ParseJson2Buf | rbx/src/afly_profile.c:849-872 | one field written, merged under its mask inside a group |
| FieldCodec.Argument2Json | rbx/src/afly_profile.c:255-272 | the recursive reader with its positions and counts |
| FieldCodec.Json2Argument | rbx/src/afly_profile.c:296-315 | the recursive writer on the buffer in place |
| FieldCodec.CmdProfileJson2Buf | rbx/src/afly_profile.c:484-500 | the bytes used of a zeroed buffer are handed out and nothing beyond them is touched |
| FieldCodec.CmdProfileBuf2Json | rbx/src/afly_profile.c:446-458 | the object read from the bytes, empty for an empty profile |
| FieldRoundTrip.WriteEncodes | rbx/src/afly_profile.c:296-315 | the writer lays a profile down field after field, a group once in the width of its members, and touches nothing else |
| FieldRoundTrip.ReadDecodes | rbx/src/afly_profile.c:255-272 | the reader takes the same bytes apart in the same order and counts the same |
| FieldRoundTrip.RoundTrip | rbx/src/afly_profile.c:446-500 | for every profile of fields and groups of at most 128 bytes: reader and writer report the same count, and every field and member comes back reduced to its room |
| FieldRoundTrip.RecoversExactlyWhen | rbx/src/afly_profile.c:446-500 | every value comes back exactly when every value survives in the room of its field or mask |
| FieldRoundTrip.ValuesLost | rbx/src/afly_profile.c:558-579 | a 32-bit value of 2^31 and a member under mask 0x10 do not come back |
| FieldRoundTrip.OneBitMasks | rbx/src/afly_profile.c:558 | masks 1, 2, 4 and 8 have room for two values each |
| FieldRoundTrip.ExampleBytes | rbx/src/afly_profile.c:484-500 | a field of 16 bits and a group of two members, byte for byte |
| FieldAbsent.TrailingAbsentHarmless | rbx/src/afly_profile.c:255-315 | with fields absent at the end of an object the others come back as in a complete one, and absent groups as empty objects |
| FieldAbsent.LeadingAbsentHarmlessExactlyWhen | rbx/src/afly_profile.c:255-315 | a field absent in front of the others does no harm exactly when they take fewer bytes than it; otherwise it comes back with a value of theirs |

## Left out

- JSON parsing and printing, ubus, the cloud SDK, logging, OTA, shell commands, `zigbee.c`, `cmd.c`, `product.c`, `platform.c` and the `main` functions: plain I/O, or libraries that are not part of this model. SDK answers are arbitrary inputs.
- Sha1Code.Sha1Info.Update: calls of 2^31 bytes and more are excluded, since the count is a C `int`; the total length is not bounded, and from 2^64 bits on the length field wraps as in the code.
- Sha1Code.Sha1Info.Transform: the build with `UNROLL_LOOPS` is the same text as the loops and has no member of its own.
- Hmac.HmacSha1: the final zeroing of the local buffers is not modelled.
- The loads for other values of `BYTE_ORDER` in `sha1.c` are never compiled and not modelled.
- Relock.RelockGateway.Call: the blocking property post inside `subdev_timeout_func` is not timed; the time it takes can follow as a wait event. `long` arithmetic does not overflow in the model.
- Relock.RelockGateway.Arm: the other timers in the list of `timer.c`, and its zero that stands for an unset timer, are not modelled.
- The timer node inside a device record: the relock model has its own records of lock status and node, and the record type of the device table leaves the node out, so the two models meet only in what each says about deletion.
- DeviceTable.RunKeepsSynced: every write of a record lands whole; short writes, short reads and the file handle that the save leaves open are not modelled. The union with `z3light` is modelled as its lock member.
- ProductSub.ProductSub.LoadAll: an existing database file that cannot be opened or is too short is not modelled, nor are the return codes.
- ProductSub.ProductSub.Save: a write that fails half-way and its return code -3 are not modelled.
- ProductSub.ProductSub.Add: strings are unbounded; overlong names and keys overflow the C buffers.
- LockProtocol.KeysAreConserved: sessions are over one device record that stays in use. Identifiers that overflow `int` are arbitrary inputs.
- LockProtocol.NoteMatchesOneSlot: a missing `KeyStr` crashes the C string functions and is not modelled.
- `subdev_del_key`, `subdev_clr_key` and the other service calls only pass a message to the lock and change no state here.
- DeviceLife.LivesAreOrderly: ids handed out by a successful create are nonzero, as the SDK documents; the case of 0 is `IdZeroBreaksExactlyWhen`. The re-registration after a failed event post (`rbx/src/afly.c:2096-2126`) swaps the id without touching `login` and is not an event of these runs.
- Uproto.Uproto.WaitResponse: waits from inside a handler are not modelled, nor packets without a `from`, `type`, `mac` or `attribute` string, on which the C code crashes.
- NxpLocks.Locks.LockExit: teardown calls succeed, and two live entries may hold equal resources only as two copies.
- GatewayMac.GatewayMacText: the read of the address is an input; the caller's buffer is large enough.
- FieldCodec.Json2Argument: where the C would write past its 128 bytes the model writes nothing. The attribute variants `alink_attr2json` and `alink_json2attr` differ in field names only.
- FieldCodec.ParseJson2Buf: the same, and the same kinds as the reader.
- FieldCodec.ParseBuf2Json: signed, string, struct, array and boolean fields and widths over 32 bits, where the shift of an `int` is undefined, are not modelled; values are numbers and not their decimal text.
- FieldRoundTrip.RoundTrip: every field of the profile has a value in the object; objects with fields absent at the end or in front are in `FieldAbsent`, a field absent between others that are present is not treated.
