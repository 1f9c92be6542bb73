# Verified models of the Chromium EC firmware

The embedded controller of a Chromebook scans the keyboard, charges the battery, negotiates USB Power Delivery, holds the
power button and checks its own signature, in a few kilobytes of C. This project models the parts of that firmware where
multi-word arithmetic, buffers edited in place, interleaving or long-lived state make it hard to see that the code is
right, and proves what each of them is for.

Code that works by changing things step by step is imperative Dafny: arrays, classes with the static variables of the
file as fields, and loops with invariants, each method proved against a function that says what it computes. What the
firmware promises is then proved about those functions, for every input and every run.

- `Rsa` (with `Der`, `BigNum`, `ModArith`, `Bits`, `Words`): Montgomery multiplication with 64-bit accumulators,
  exponentiation with e = 65537, and the PKCS#1 v1.5 check of RFC 3447, for any number of words. The code makes no range
  check on the signature integer, and neither does the statement.
- `KeyboardScan` (with `ColumnBits`, `Debounce`): the scan with its byte arrays refines a key-by-key specification, and
  over every history of scans a debounced key never changes early.
- `I2cArbitration`, `Timers`, `Deferred`, `Hooks`: state machines of the interleaved steps of two processors on a bus, of
  the timer interrupt against arming and cancelling, and of the hook task against callers of a deferral; and the hook
  dispatcher.
- `Console` (with `Terminal`, `LineEdit`, `Memory`): the line editor as an edit of two texts, and a terminal that is fed
  everything it sends.
- `Sha256` (with `Sha256Constants`, `Sha256Functions`): streaming refines the one-shot definition of FIPS 180-2.
- `UsbPdPacket`, `UsbPdRxRing`: what is printed onto the wire is parsed back, and the receive ring is a queue.
- `ChargeManager`: the nested loops choose a best offer, and the retry loop ends with the best that the board's answers leave.
- `JumpTags`: tags in raw memory survive a jump between images whose jump data differ in size.
- `Queue`: the ring with free-running indices is a FIFO.
- `SpiFlash` (on the chip `NorFlash`): erasing and writing by blocks and pages is erasing and writing a range.
- `PowerButton`: the signal to the chipset over every run.

## Where the code does not do what one would expect

Each of these is stated exactly, with the condition under which the expected property holds.

- A PRE_INIT hook that runs in the middle of an EC claim releases the EC's wire, and both sides can own the bus
  (`PreInitSafeExactlyOutsideClaims`; the situation is reachable, `MidClaimAtPreInitHappens`).
- A PRE_INIT hook that runs while the EC releases the bus asserts the EC's wire for good: the EC is then idle, and the AP
  is shut out until the EC claims the bus again (`IdleHoldsWireExactly`, `HookInReleaseShutsOut`).
- A key whose debounce window is longer than 31 scan intervals is never accepted, because the ring of scan times has
  forgotten its edge (`LongWindowNeverAccepts`).
- A packet whose end-of-packet symbol is wrong makes the parser return a positive position, which its callers take for a
  header (`RoundTrip`, with any last symbol).
- The length field of the hash is 32 bits, so the digest is the standard's below 2^29 bytes
  (`ShortPaddingIsStandardBelow512MiB`).
- An update of the hash adds the buffered length in 32 bits. When the sum wraps, the data are ignored and some of what was
  buffered is forgotten (`Update`).
- The flash driver's range check adds in 32 bits; a range whose sum wraps can pass it, and the cells that its
  addresses select are then erased or programmed (`OutOfRangeIsExact`, `Erase`).
- Peeking into the queue at an index beyond its count reports units but copies none (`PeekUnits`).
- The hook dispatcher serves priorities from 1 to 10000, one more than declared (`StableExactly`). With a priority outside
  them it either never ends, calling nothing any more, or, if some priority is 10000, ends after calling a routine of
  that priority twice and another one never (`EndsExactly`, `CalledTwiceAndNever`, `NoFurtherCall`).
- The hook task works out its sleep from one reading of the clock, and the sleep begins at a later one; a deferred routine
  can be late by the time between the two, and by no more (`DueMeansAwake`, `AwakeAtDeadlineExactly`,
  `DeadlineOverslept`).
- The up arrow brings back the line just entered only when the history holds at least two lines
  (`UpRecallsEnteredLine`).
- A start after a jump between images with the button held keeps the power button property; a forced press is what
  breaks it (`ForcePressIsJustifiedExactly`).

## Model

| member | source | states |
|---|---|---|
| `Rsa.SubMod` | common/rsa.c:18-27 | the array becomes a - n modulo R, with the borrow carried in a signed 64-bit accumulator |
| `Rsa.GeMod` | common/rsa.c:32-43 | true exactly when the number in the array is at least the modulus |
| `Rsa.MontMulAdd` | common/rsa.c:48-70 | the new c is below R and 2^32 c' is congruent to c + a b modulo n, for every c and b below R; both accumulators stay below 2^64 |
| `Rsa.LowWordVanishes` | common/rsa.c:56-58 | with n0inv n[0] = -1 modulo 2^32 the lowest word of c + a b + d0 n is zero |
| `Rsa.AllColumns` | common/rsa.c:60-67 | the carried columns together are the sum c + a b + d0 n |
| `Rsa.OverflowByOneBit` | common/rsa.c:67-69 | what overflows the top word is at most one bit, and subtracting n once then brings the value below R |
| `Rsa.StoreTopWord` | common/rsa.c:66-69 | the last carries become the top word, and one subtraction of n takes in the bit that overflows it |
| `Rsa.MontMul` | common/rsa.c:75-86 | c R is congruent to a b modulo n, also for operands that are not below n |
| `Rsa.CancelRadix` | common/rsa.c:75-86 | R can be cancelled modulo n, because the key makes n odd |
| `Rsa.UsableKeyIsOdd` | common/rsa.c:48-58 | the condition on n0inv already implies an odd modulus |
| `Rsa.EnterMontgomery` | common/rsa.c:114-114 | multiplying by R^2 mod n takes the operand into Montgomery form |
| `Rsa.SquareInMontgomery` | common/rsa.c:115-118 | a Montgomery square doubles the exponent |
| `Rsa.LeaveMontgomery` | common/rsa.c:119-119 | the last product adds one to the exponent and takes R out |
| `Rsa.SquareSixteenTimes` | common/rsa.c:115-118 | sixteen squarings in two alternating arrays give the exponent 65536 |
| `Rsa.FullyReduced` | common/rsa.c:121-123 | one conditional subtraction gives the remainder modulo n, because the top bit of n is set |
| `Rsa.LoadWords` | common/rsa.c:103-111 | the little-endian words stand for the big-endian octets |
| `Rsa.StoreWords` | common/rsa.c:125-133 | the buffer becomes the octet string of the number |
| `Rsa.ModPowF4` | common/rsa.c:96-134 | for every byte string s, the buffer becomes the big-endian octets of s^65537 mod n, fully reduced |
| `Rsa.CheckPadding` | common/rsa.c:164-182 | reports a fault exactly when the first two bytes, the 0xff run or the stored tail differ |
| `Rsa.PaddingIsEmsa` | common/rsa.c:136-182 | good padding and the digest behind it are together exactly the EMSA-PKCS1-v1_5 encoding of the digest |
| `Der.DigestInfoIsDer` | common/rsa.c:136-155 | the stored bytes are the DER encoding of the SHA-256 algorithm, 2.16.840.1.101.3.4.2.1 without parameters, and a digest of 32 octets |
| `Der.EncodedMessageOctets` | common/rsa.c:136-148 | an encoded message is 00 01, at least eight octets ff, 00, and the DigestInfo |
| `Rsa.RsaVerify` | common/rsa.c:195-214 | accepts exactly when the octets of s^65537 mod n are the EMSA-PKCS1-v1_5 block of the digest |
| `Rsa.VerifiedMeansEqualIntegers` | common/rsa.c:195-214 | comparing octet strings of the right length is comparing the integers |
| `BigNum.OctetsDetermineBytes` | common/rsa.c:103-133 | converting octets to an integer and back gives the octets |
| `BigNum.BytesDetermineInteger` | common/rsa.c:103-133 | converting an integer that fits to octets and back gives the integer |
| `KeyboardScan.HasGhosting` | common/keyboard_scan.c:366-390 | true exactly when two columns share two pressed rows |
| `ColumnBits.MoreThanOneBit` | common/keyboard_scan.c:378-384 | clearing the lowest set bit leaves something exactly when two bits are set |
| `KeyboardScan.MarkColumn` | common/keyboard_scan.c:421-438 | every key of the column whose reading changed is debouncing with the current slot as its edge, and no other key changes |
| `KeyboardScan.SettleColumn` | common/keyboard_scan.c:440-482 | every key of the column is settled against the ring of times, by 32-bit differences |
| `KeyboardScan.Scanner.CheckKeysChanged` | common/keyboard_scan.c:399-505 | the arrays hold, for every key, what the key-by-key specification gives for the history extended by this scan |
| `KeyboardScan.Scanner.Init` | common/keyboard_scan.c:594-612 | the arrays start as the matrix read at boot, with nothing debouncing |
| `KeyboardScan.Scanner.SaveScanTime` | common/keyboard_scan.c:408-411 | the time goes into the next slot of the ring |
| `Debounce.RunInvariant` | common/keyboard_scan.c:399-505 | after every run, a key whose debounced value differs from its last reading is debouncing, and its edge index is the slot of the last raw edge |
| `Debounce.RingEntryIsLastInSlot` | common/keyboard_scan.c:408-411 | a ring entry is the time of the last scan that used the slot |
| `Debounce.DebounceSafety` | common/keyboard_scan.c:421-482 | a debounced value changes only after a raw edge, with every scan since reading the new value and the window really elapsed, in spite of overwritten slots and clock wrap |
| `Debounce.AcceptedExactlyAfterWindow` | common/keyboard_scan.c:440-482 | while the edge is in the ring and the clock has not wrapped, the value changes precisely when the window has elapsed |
| `Debounce.AcceptedExactlyWhenOver` | common/keyboard_scan.c:440-482 | for every history, overwritten slots and clock wraps included, one scan accepts a value precisely when the 32-bit time since the last use of the edge's slot reaches the window |
| `Debounce.HeldKeyAcceptedExactly` | common/keyboard_scan.c:399-482 | a key held since its edge is accepted precisely when some scan since then has found the window over |
| `Debounce.LongWindowNeverAccepts` | common/keyboard_scan.c:408-482 | with a window longer than any 31 scan intervals no key ever changes |
| `I2cArbitration.StepKeepsInv` | common/i2c_arbitration.c:30-104 | a claiming side holds its wire low long enough to be seen, and an owner asserted first, kept by every step |
| `I2cArbitration.MutualExclusion` | common/i2c_arbitration.c:30-104 | in every interleaving without a PRE_INIT hook inside an EC claim, EC and AP never both own the bus |
| `I2cArbitration.NeverBothFromStart` | common/i2c_arbitration.c:30-104 | in particular in every such interleaving from reset |
| `I2cArbitration.PreInitSafeExactlyOutsideClaims` | common/i2c_arbitration.c:90-96 | a PRE_INIT hook leads to no conflict in any continuation exactly when the EC is not in the middle of a claim |
| `I2cArbitration.PreInitInMidClaim` | common/i2c_arbitration.c:38-60 | otherwise there is a run in which both own the bus; the EC polls at once, or after the 32-bit time since the round began has wrapped when that round is over |
| `I2cArbitration.MidClaimAtPreInitHappens` | common/i2c_arbitration.c:90-103 | such a state is reached when the AP shuts down during a claim |
| `I2cArbitration.IdleHoldsWireExactly` | common/i2c_arbitration.c:81-96 | in every run, an idle EC holds its wire asserted exactly when the last PRE_INIT hook fell into a release, with no claim and no shutdown since |
| `I2cArbitration.HookInReleaseShutsOut` | common/i2c_arbitration.c:81-96 | after such a hook the AP never gets the bus until the EC claims it again or the AP shuts down |
| `I2cArbitration.StrandedHappens` | common/i2c_arbitration.c:81-96 | a run from reset in which it happens |
| `I2cArbitration.GivesUpOnlyAfter100ms` | common/i2c_arbitration.c:39-75 | in every run, a claim that the EC gives up has lasted 100 ms at least |
| `I2cArbitration.TriesAgainUntil100ms` | common/i2c_arbitration.c:66-72 | at the end of a round the EC asserts its wire again before 100 ms on the 32-bit clock, and gives up afterwards |
| `LineEdit.ReceiveKeepsValid` | common/console.c:388-540 | every received character keeps the line and the saved lines printable and within the buffer |
| `LineEdit.BackspaceUndoesTyping` | common/console.c:296-320 | backspace takes back what was typed, wherever the cursor is |
| `LineEdit.CursorKeysAreInverse` | common/console.c:218-243 | left and right undo each other and move over the same text |
| `LineEdit.DeleteRemovesUnderCursor` | common/console.c:437-443 | delete removes the character under the cursor and nothing else |
| `LineEdit.UpRecallsEnteredLine` | common/console.c:452-520 | the line just entered is recalled by the up arrow exactly when there are at least two history slots |
| `LineEdit.ArrowSequence` | common/console.c:328-386 | the three bytes of an arrow key act as the matching control character |
| `LineEdit.HomeKey` | common/console.c:365-368 | the bytes of the Home key put the cursor before the text |
| `LineEdit.EndKey` | common/console.c:360-363 | those of the End key put it behind the text |
| `LineEdit.DeleteKey` | common/console.c:370-373 | those of the Delete key remove the character under the cursor |
| `LineEdit.ControlCharacters` | common/console.c:418-488 | what Control-A, E, K, L, H and Delete do to the text and the cursor |
| `LineEdit.MovingCharacters` | common/console.c:454-468 | Control-B and F move the cursor by one and keep the text |
| `LineEdit.PrintableCharacter` | common/console.c:515-537 | a printable character goes in at the cursor while there is room |
| `LineEdit.EndOfLineEntersOnce` | common/console.c:388-399 | a carriage return, a newline, or both enter the line once |
| `LineEdit.OnlyEnterRuns` | common/console.c:424-440 | only the end of a line runs a command, and that runs the text of the line |
| `LineEdit.DownUndoesUp` | common/console.c:489-513 | down after up brings back the line that was being edited |
| `Console.Console.HandleChar` | common/console.c:388-540 | after every character the buffer is NUL-terminated at its length, equals the abstract edit, and the terminal row shows the prompt and the text with the cursor at the edit position |
| `Console.Console.Decode` | common/console.c:396-430 | newline translation and the escape automaton give the key |
| `Console.Console.HandleKey` | common/console.c:432-539 | each key has its abstract effect |
| `Console.Console.HandleBackspace` | common/console.c:296-320 | removes the character before the cursor, in the buffer and on the screen |
| `Console.Console.CloseGap` | common/console.c:301-317 | the text behind the cursor and its NUL move down over one character |
| `Console.Console.OpenGap` | common/console.c:518-536 | the text behind the cursor and its NUL move up, and the character goes into the gap |
| `Console.Console.TypeChar` | common/console.c:506-539 | inserts a printable character at the cursor unless the buffer is full |
| `Console.Console.KillToEnd` | common/console.c:476-484 | removes the text behind the cursor, in the buffer and on the screen |
| `Console.Console.MoveCursorRight` | common/console.c:218-225 | the cursor moves over one character, in the buffer and on the screen |
| `Console.Console.MoveCursorLeft` | common/console.c:236-243 | the same to the left |
| `Console.Console.MoveCursorEnd` | common/console.c:227-234 | the cursor goes behind the text |
| `Console.Console.MoveCursorBegin` | common/console.c:245-252 | the cursor goes before the text |
| `Console.Console.LoadHistory` | common/console.c:267-283 | a saved line replaces the current one and nothing of the old one stays on the screen |
| `Console.Console.SaveHistory` | common/console.c:288-292 | the line being edited is kept in its slot |
| `Console.Console.HandleEnter` | common/console.c:449-468 | the line is saved unless empty, the command runs, and a new prompt is shown |
| `Console.Console.HandleCommand` | common/console.c:438-439 | the text in the buffer is run, and the terminal takes the output of the command |
| `Console.Console.RecallHistory` | common/console.c:490-505 | moves one line up or down in the history, around its ends |
| `Console.Console.Reprint` | common/console.c:486-489 | redraws the same line |
| `Console.BackspaceOnScreen` | common/console.c:296-320 | the bytes a backspace sends leave the shortened text on the row |
| `Console.TypingOnScreen` | common/console.c:518-536 | the bytes an insertion sends leave the longer text on the row |
| `Terminal.FeedText` | common/console.c:210-216 | printable bytes overwrite the row from the cursor on |
| `Terminal.FeedCursor` | common/console.c:227-252 | a cursor sequence moves the cursor by its decimal number |
| `Memory.MemMove` | common/util.c:256-305 | copies as if through a temporary, for overlapping ranges in both directions |
| `Memory.MemCpy` | common/util.c:174-215 | copies a block and leaves the rest |
| `Timers.ScanTimers` | common/timer.c:53-95 | expires exactly the timers that are due, waking the task of each, and finds the next deadline |
| `Timers.NextIsEarliest` | common/timer.c:63-79 | that deadline is the earliest upcoming one among the running timers |
| `Timers.ClearExactlyWhenNothingUpcoming` | common/timer.c:81-84 | the event is cleared exactly when no running timer is upcoming |
| `Timers.ScanStepKeepsInv` | common/timer.c:53-95 | one pass of the interrupt routine keeps every served deadline covered |
| `Timers.StepKeepsInv` | common/timer.c:53-144 | so does every step of arming, cancelling, ticking and interrupting |
| `Timers.RunKeepsInv` | common/timer.c:53-144 | and every interleaving of them |
| `Timers.NeverEarly` | common/timer.c:33-39 | in every interleaving no timer expires before its deadline |
| `Timers.StopsByCancelOrWake` | common/timer.c:33-39 | a step that takes a timer out other than by a cancel wakes its task once, for its deadline, and no step wakes a task otherwise |
| `Timers.EveryStartIsAccountedFor` | common/timer.c:33-144 | over every run, each start of a timer ends in exactly one wake, or in a cancel, or the timer still runs |
| `Timers.RunningOrWokenOnce` | common/timer.c:33-144 | a running timer that is not cancelled still runs or has woken its task exactly once since |
| `Timers.NoWakeAfterCancel` | common/timer.c:135-144 | after a cancel the task is not woken until its timer is started again |
| `Timers.SetTimerWakesForStamp` | common/timer.c:117-126 | a timer set to a stamp wakes its task, until it is set anew, for that stamp and not before it |
| `Timers.EventCoversDeadlines` | common/timer.c:117-133 | with no interrupt pending or running, every served timer due in this epoch has the programmed event at or before it, and is not overdue |
| `Hooks.HookNotify` | common/hooks.c:92-132 | for every table on which the loop ends, makes the calls of the rounds up to its end; they are the stable sort of the table by priority, each routine once, exactly when every priority lies from 1 to 10000 |
| `Hooks.LowestAbove` | common/hooks.c:104-111 | finds the lowest remaining priority |
| `Hooks.RoundKeepsCalled` | common/hooks.c:103-123 | a round keeps the calls exactly the routines up to the last priority, in stable order except for repeats at 10000 |
| `Hooks.StableOrderIsUnique` | common/hooks.c:92-132 | the table determines the calls |
| `Hooks.EndsExactly` | common/hooks.c:102-124 | the loop ends exactly when every priority lies from 1 to 10000 or some priority is 10000 |
| `Hooks.StableExactly` | common/hooks.c:102-124 | when it ends, each routine has been called once in stable order exactly when every priority lies from 1 to 10000 |
| `Hooks.CalledTwiceAndNever` | common/hooks.c:112-123 | when it ends otherwise, a routine with priority 10000 has been called twice and another routine never |
| `Hooks.NeverEnough` | common/hooks.c:102-124 | with a priority out of reach and none of 10000, no number of rounds makes as many calls as there are routines |
| `Hooks.NoFurtherCall` | common/hooks.c:102-124 | then the rounds call nothing any more once the priorities are used up |
| `Hooks.CalledTwiceExample` | common/hooks.c:102-124 | with the priorities 10000 and 0, the loop ends after calling the first routine twice |
| `Deferred.StepKeepsInv` | common/hooks.c:134-248 | every step of the hook task and of callers, and the passing of time between them, keeps each armed slot in time, flagged, or in flight |
| `Deferred.NoLostDeferral` | common/hooks.c:134-246 | in every run, whenever the task sleeps, the sleep ends no later after the deadline of each armed slot than the time that passed between reading the clock and the beginning of the sleep, or a wake-up is posted, or its caller is about to post one |
| `Deferred.DueMeansAwake` | common/hooks.c:134-246 | in every run, once that time has passed since its deadline, a slot that is not in flight finds the task able to run |
| `Deferred.AwakeAtDeadlineExactly` | core/cortex-m/task.c:361-373 | at a deadline during the sleep, the task is able to run exactly when a wake-up is posted or no more time passed before the sleep began than the deadline allows; for the deadline that set the sleep, exactly when none passed |
| `Deferred.DeadlineOverslept` | common/hooks.c:220-246 | for any time lost before the sleep begins, a run in which the task is still asleep that long, less one microsecond, after a deadline |
| `Deferred.PassCallsDueSlots` | common/hooks.c:183-202 | in every run, a pass of the loop calls each slot exactly once when the slot is due as the pass reaches it and otherwise not, and disarms it unless it is armed again |
| `Deferred.DueSlotIsCalled` | common/hooks.c:183-202 | a slot that is due when a pass starts, and is neither armed again nor cancelled, is called once by it, for its deadline |
| `Deferred.EveryArmingIsAccountedFor` | common/hooks.c:134-202 | over every run, each arming ends in exactly one call, or a cancel, or being replaced, or is still armed |
| `Deferred.NeverCalledEarly` | common/hooks.c:189-201 | in every run, each call is for a deadline that had passed when its pass began |
| `Deferred.NoCallAfterCancel` | common/hooks.c:150-152 | after a cancel a slot is not called until it is armed again |
| `Deferred.CallsAreForDeadline` | common/hooks.c:153-155 | until a slot is armed again, its calls are for the deadline it has |
| `Deferred.PassTicks` | common/hooks.c:204-212 | a pass calls the tick hooks exactly when the interval has gone by since the last tick |
| `Deferred.TicksAreSpaced` | common/hooks.c:204-212 | in every run, ticks are at least the interval apart |
| `Sha256.Context.Init` | common/sha256.c:115-124 | the initial hash value, nothing absorbed |
| `Sha256.Context.Transform` | common/sha256.c:126-165 | the hash value becomes the block recurrence over all the blocks |
| `Sha256.Context.TransformBlock` | common/sha256.c:136-163 | one block is compressed as section 6.2.2 of FIPS 180-2 says |
| `Sha256.Schedule` | common/sha256.c:139-143 | the message schedule of the block |
| `Sha256.RunRounds` | common/sha256.c:148-159 | the 64 rounds, on the array of working variables |
| `Sha256.Context.Update` | common/sha256.c:167-197 | the context has absorbed the complete blocks of the longer message and buffers the rest; when the 32-bit sum of the lengths wraps, it is the context of the old message without its last 2^32 less the length of the data |
| `Sha256.Context.Final` | common/sha256.c:199-222 | the stored digest is that of the whole message with the length field cut to 32 bits, which is SHA-256 below 2^29 bytes |
| `Sha256.HashInPieces` | common/sha256.c:115-222 | however the message is cut into updates, the digest is that of the whole message |
| `Sha256Spec.FoldConcat` | common/sha256.c:186-187 | absorbing one run of blocks after another is absorbing both |
| `Sha256Spec.ShortPaddingIsStandardBelow512MiB` | common/sha256.c:208-213 | the 32-bit length field is the standard's exactly below 2^29 bytes |
| `Sha256Spec.PaddedIsWhole` | common/sha256.c:205-213 | padding completes a whole number of blocks |
| `Sha256Functions.PaddingOctets` | common/sha256.c:205-213 | the standard padding is a one bit, the fewest zeros, and the length in bits in eight octets |
| `Sha256Constants.RoundConstants` | common/sha256.c:89-105 | the round constants are the first 32 bits of the fractional parts of the cube roots of the first 64 primes |
| `Sha256Constants.InitialHash` | common/sha256.c:85-87 | the initial hash value is that of the square roots of the first eight |
| `Sha256Functions.ChooseAt` | common/sha256.c:44-44 | each bit of the first word chooses between those of the others |
| `Sha256Functions.MajorityAt` | common/sha256.c:45-45 | each bit is that of at least two of the three words |
| `Sha256Functions.RotateAt` | common/sha256.c:41-42 | a rotated word takes each bit from higher up, around its end |
| `Sha256Functions.BigSigmasAt` | common/sha256.c:47-48 | each bit is the parity of three rotated ones |
| `Sha256Functions.SmallSigmasAt` | common/sha256.c:49-50 | each bit is the parity of two rotated ones and a shifted one |
| `Sha256Functions.TwoSequences` | common/sha256.c:148-160 | the rounds are a recurrence of two sequences, each round taking their last four values |
| `Sha256Functions.ScheduleWords` | common/sha256.c:139-143 | the schedule begins with the words of the block, and each further word is the sum of the one sixteen places back and three others |
| `Sha256Functions.CompressionAddsIn` | common/sha256.c:162-163 | the working variables are added to the old hash value, modulo 2^32 |
| `Sha256.PadLength` | common/sha256.c:205-209 | the padded tail is one block, or two when the length does not fit |
| `UsbPdPacket.TablesInvert` | common/usb_pd_tcpc.c:51-120 | the two tables invert each other, and decode exactly the codes of nibbles to nibbles |
| `UsbPdPacket.CodesAreStandard` | common/usb_pd_tcpc.c:51-82 | the codes are those of the 4b5b table of the standard, spelled bit by bit |
| `UsbPdPacket.LowestFirst` | common/usb_pd_tcpc.c:261-273 | nibbles go out lowest first, and the lower half of a word first |
| `UsbPdPacket.BmcIsLineCode` | common/usb_pd_tcpc.c:44-49 | the macro's ten half-bits, against the level the line is at, are biphase mark code |
| `UsbPdPacket.PreambleIsAlternating` | chip/stm32/usb_pd_phy.c:190-201 | the preamble is the line code of 64 bits, zero and one in turn |
| `UsbPdPacket.Transmitter.WriteSym` | chip/stm32/usb_pd_phy.c:203-220 | appends the line code of the symbol |
| `UsbPdPacket.Transmitter.EncodeShort` | common/usb_pd_tcpc.c:261-267 | appends the symbols of the four nibbles, lowest first |
| `UsbPdPacket.Transmitter.EncodeWord` | common/usb_pd_tcpc.c:269-273 | appends the lower half, then the upper |
| `UsbPdPacket.Transmitter.WriteLastEdge` | chip/stm32/usb_pd_phy.c:222-244 | there is an edge after the last bit, whatever level the line is at |
| `UsbPdPacket.Transmitter.PrepareMessage` | common/usb_pd_tcpc.c:276-312 | the line carries preamble, start of packet, header, data, checksum and end of packet |
| `UsbPdPacket.DecodeShort` | common/usb_pd_tcpc.c:510-528 | the number that four symbols on the wire decode to, or an error when they are not all there |
| `UsbPdPacket.DecodeWord` | common/usb_pd_tcpc.c:530-534 | the same for two halves |
| `UsbPdPacket.SkipToSop` | common/usb_pd_tcpc.c:617-629 | the position behind the first start of packet on a 20-bit boundary, or an error |
| `UsbPdPacket.AnalyzeRx` | common/usb_pd_tcpc.c:593-689 | for every wire, returns what that wire carries, with each error code |
| `UsbPdPacket.SymbolsArrive` | common/usb_pd_tcpc.c:510-528 | symbols written one after the other are dequeued as they were |
| `UsbPdPacket.ShortArrives` | common/usb_pd_tcpc.c:510-528 | four symbols of a short decode to it |
| `UsbPdPacket.WordsArrive` | common/usb_pd_tcpc.c:640-650 | the data words are read back |
| `UsbPdPacket.RoundTrip` | common/usb_pd_tcpc.c:593-689 | a message with any checksum and last symbol, whose count matches its header: a wrong checksum is reported; otherwise the message is received as it was when its last symbol ends like the end of packet, and else gives a position |
| `UsbPdPacket.AcceptedIsThere` | common/usb_pd_tcpc.c:593-689 | whatever is on the wire, nothing is accepted but a whole packet on a 20-bit boundary with its checksum and its end |
| `UsbPdPacket.CablePacketRejected` | common/usb_pd_tcpc.c:619-629 | a packet for a cable plug is reported as not supported, whatever follows its start |
| `UsbPdPacket.Loopback` | common/usb_pd_tcpc.c:276-312 | sending and receiving gives the header and the payload back |
| `UsbPdRxRing.Port.Incoming` | common/usb_pd_tcpc.c:763-789 | a good message is kept, and acknowledged unless it is itself a GoodCRC, exactly when there is room; otherwise nothing of the ring changes |
| `UsbPdRxRing.ScratchSlot` | common/usb_pd_tcpc.c:185-195 | the slot the parser writes into holds no unread message |
| `UsbPdRxRing.HeaderFields` | include/usb_pd.h:815-822 | type, message number and count are read back from a composed header |
| `UsbPdRxRing.Port.AlertStatusClear` | common/usb_pd_tcpc.c:882-906 | clearing the receive bit takes the oldest message, and the bit stays while there are more |
| `UsbPdRxRing.Port.GetMessage` | common/usb_pd_tcpc.c:1003-1012 | the oldest message |
| `UsbPdRxRing.Port.IsFull` | common/usb_pd_tcpc.c:243-248 | full exactly when the ring holds as many messages as its size |
| `UsbPdRxRing.Port.Drain` | common/usb_pd_tcpc.c:882-1012 | taking messages while the alert is set delivers every kept message once and in order |
| `ChargeManager.Manager.GetBestChargePort` | common/charge_manager.c:323-401 | the result is a candidate that no candidate beats on override, supplier priority, power, being the active port and, in a tie, the order of the loops; or none when there is no candidate |
| `ChargeManager.BestIsByTheRules` | common/charge_manager.c:336-394 | the same without the order: an offer on the override port forces that port; otherwise none has a better supplier, nor more power with an equal one, nor the active port with equal power |
| `ChargeManager.Manager.Compare` | common/charge_manager.c:345-394 | the body of the loops keeps the best of the offers seen so far |
| `ChargeManager.BetterIsTotalOrder` | common/charge_manager.c:336-394 | the comparison is a strict total order of the offers |
| `ChargeManager.BestIsUnique` | common/charge_manager.c:323-401 | so the selected port and supplier are determined by the offers, the override and the active port |
| `ChargeManager.Manager.Hunt` | common/charge_manager.c:415-441 | for every behaviour of a board that accepts no port, the search ends; the board was asked each time about the best that its rejections so far had left, and the choice is the best that all its rejections leave, answered yes to or the charge in use |
| `ChargeManager.Manager.Ask` | common/charge_manager.c:426-440 | a rejected port is taken out of the offers, and one port fewer is left |
| `ChargeManager.AskedOnce` | common/charge_manager.c:434-440 | no port is asked about twice |
| `ChargeManager.NoneOnlyWhenAllRejected` | common/charge_manager.c:415-441 | no port is chosen only when the board has said no to every port with a candidate |
| `ChargeManager.ObligingBoard` | common/charge_manager.c:415-441 | a board that only says yes is asked at most once, and the choice is the best of all offers |
| `ChargeManager.Manager.Refresh` | common/charge_manager.c:407-514 | the port and supplier are the choice of that search and keep to the rules of selection, only ports the board rejected lose their offers, the override is off or chosen, the current is the offer's, cut to the ceiling when one is set, and the board charges from the recorded port |
| `JumpTags.Ram.AddJumpTag` | common/system.c:210-231 | puts the tag in front of the others, or reports the error and changes nothing; the saved reset flags are kept |
| `JumpTags.Ram.GetJumpTag` | common/system.c:233-260 | finds the bytes, size and 8-bit version of the latest addition, or nothing |
| `JumpTags.Ram.PrepareJump` | common/system.c:468-473 | the jump data are filled in and there are no tags |
| `JumpTags.Ram.PreInit` | common/system.c:626-701 | after a jump the same tags are found by this image, for smaller and larger old jump data; otherwise there are none |
| `JumpTags.Ram.MoveTags` | common/system.c:666-685 | the overlapping move puts the tags right below the jump data |
| `JumpTags.Ram.ReadyMeansLeftBehind` | common/system.c:468-476 | what one image leaves is what the next one expects |
| `JumpTags.ParseElsewhere` | common/system.c:682-685 | the same bytes elsewhere are the same tags |
| `JumpTags.Placed` | common/system.c:219-228 | header and data written below the tags are one more tag in front of them |
| `Queue.IndexWraps` | common/queue.c:71-74 | a free-running index wrapped modulo 2^32 moves around the ring as an unbounded one would |
| `Queue.IndexIsRemainder` | common/queue.c:71-74 | masking an index is its remainder, for a power of two |
| `Bits.MaskIsRemainder` | common/queue.c:71-74 | masking with a power of two less one is the remainder |
| `Queue.Queue.AdvanceHead` | common/queue.c:99-108 | drops the longest prefix of at most that many units |
| `Queue.Queue.AdvanceTail` | common/queue.c:110-119 | takes in the units that lie behind the tail, as many as fit |
| `Queue.Queue.AddUnits` | common/queue.c:141-162 | appends the longest prefix that fits, across the wrap |
| `Queue.Queue.AddUnit` | common/queue.c:121-134 | appends one unit unless the queue is full |
| `Queue.Queue.RemoveUnits` | common/queue.c:204-217 | copies out and drops the oldest units |
| `Queue.Queue.RemoveUnit` | common/queue.c:184-197 | copies out and drops the oldest unit |
| `Queue.Queue.PeekUnits` | common/queue.c:227-245 | copies out the units from an index on and changes nothing; for an index beyond the count it copies nothing and reports the wrapped difference |
| `Queue.Queue.ReadSafe` | common/queue.c:164-182 | the units of the ring from an index, across the wrap |
| `Queue.Queue.GetWriteChunk` | common/queue.c:71-83 | free space from the tail: all of it, or up to the end of the buffer |
| `Queue.Queue.GetReadChunk` | common/queue.c:85-97 | content from the head: all of it, or up to the end of the buffer |
| `Queue.Queue.AddThroughChunk` | common/queue.c:71-119 | filling a write chunk and advancing the tail appends what was written |
| `NorFlash.Chip.Program` | common/spi_flash.c:284-298 | programming clears bits of one page, going on at the start of the page behind its end |
| `NorFlash.ProgrammingClearsBits` | common/spi_flash.c:284-298 | a programmed bit is one exactly when it was and the data have it |
| `NorFlash.BurntAt` | common/spi_flash.c:284-298 | with at most a page of data, which byte each cell of the page takes, also when the data go around; no other cell changes |
| `NorFlash.BurntInPage` | common/spi_flash.c:275-298 | data that do not reach the end of the page are programmed one after the other |
| `SpiFlash.Driver.EraseBlock` | common/spi_flash.c:172-206 | erases the aligned block that the address selects, or reports an error and erases nothing |
| `SpiFlash.Driver.Erase` | common/spi_flash.c:216-251 | on success exactly the cells that the addresses of the range select are erased, by aligned blocks without gap or overlap, and they are the range itself unless its sum wraps; on failure nothing outside changes |
| `SpiFlash.Driver.Write` | common/spi_flash.c:263-308 | on success exactly the cells that the addresses of the range select are programmed, each with its byte, and they are the range itself unless its sum wraps; no command crosses a page |
| `SpiFlash.OverMore` | common/spi_flash.c:275-304 | a page more extends what has been programmed, because addresses less than a page apart select different cells |
| `SpiFlash.Driver.WriteSize` | common/spi_flash.c:275-276 | never beyond the end of the page, and always some progress |
| `SpiFlash.Driver.EraseAndWrite` | common/spi_flash.c:216-308 | erasing and then writing stores the data, leaves ones around it in the range, and touches nothing else |
| `SpiFlash.OutOfRangeIsExact` | common/spi_flash.c:221-222 | the check wrongly passes exactly the ranges whose sum wraps to at most the size of the flash, and never wrongly rejects one |
| `PowerButton.Driver.StateMachine` | common/power_button_x86.c:245-355 | one run of the state machine keeps the signal justified by the button or a timeout |
| `PowerButton.Driver.ButtonChanged` | common/power_button_x86.c:416-447 | so does a change of the debounced button, in every state |
| `PowerButton.Driver.PchPulse` | common/power_button_x86.c:160-169 | a pulse has its timeout armed, from every state |
| `PowerButton.Driver.PchRelease` | common/power_button_x86.c:143-158 | the signal is released, and a button still down is eaten until its release |
| `PowerButton.Driver.SetInitialState` | common/power_button_x86.c:194-238 | every kind of start begins with the signal justified, also with the button held |
| `PowerButton.StepKeepsInv` | common/power_button_x86.c:115-447 | every event keeps the invariant |
| `PowerButton.AlwaysJustified` | common/power_button_x86.c:115-447 | in every run without forced presses the signal is asserted only while the button is down or a timeout is armed |
| `PowerButton.PulseEnds` | common/power_button_x86.c:291-340 | that timeout ends the pulse |
| `PowerButton.PressIsSignalled` | common/power_button_x86.c:254-274 | a press is signalled for 32 ms with the chipset on and 200 ms with it off, unless the battery forbids it |
| `PowerButton.ReleaseIsSignalled` | common/power_button_x86.c:292-296 | a release ends the signal, unless it is to be eaten |
| `PowerButton.HeldPressIsSignalledAgain` | common/power_button_x86.c:280-291 | a press held through the delay is signalled again, with the chipset on |
| `PowerButton.PulsesLast` | common/power_button_x86.c:160-169 | a lid pulse and a start with the power on last 200 ms |
| `PowerButton.ForcePressIsJustifiedExactly` | common/power_button_x86.c:134-141 | when a forced press breaks it |
| `PowerButton.HeldPress` | common/power_button_x86.c:255-296 | while only the machine runs, a held press is a pulse, then silence until four seconds after it was processed, then the signal again |
| `PowerButton.AssertedOnlyFor` | common/power_button_x86.c:115-355 | in every run, a released signal is asserted only for a lid pulse, a press being processed, the start with the power on, or a press four seconds after it was processed; and never with the chipset off and the battery low |
| `PowerButton.QuietForFourSeconds` | common/power_button_x86.c:255-296 | in every run after a press was processed with the chipset on, a released signal is not asserted again before four seconds, until a lid pulse or another press |
| `PowerButton.NoEarlyReassertion` | common/power_button_x86.c:275-296 | in every run, leaving the delay state with the signal asserted happens no earlier than four seconds after the press was processed |

## Left out

- Rsa: the work buffer of three times the key size is three arrays, so their being adjacent in memory is not modelled.
- KeyboardScan: reading the matrix, simulated keys, the boot keys, runtime key combinations and the notification of the host.
- I2cArbitration: the AP's code, which is taken to be the mirror image of the EC's; driving the wire at the start of a claim and noting the time are one step.
- Console: the console UART, interrupts, and command parsing; a command's output is a parameter that leaves the cursor on a blank row, and saved lines are strings. The echo is sent before the buffer changes.
- Timers: expiring a timer wakes a task, which is recorded and not run; the clock stays below the last 32-bit epoch but one.
- Deferred: pre-emption inside a 64-bit store and between testing and clearing a deadline; the hooks that run once a second, and the delay statistics. The timer that ends the sleep may fire from its deadline on.
- Hooks.HookNotify: requires that the loop ends; `EndsExactly` says when, and `NoFurtherCall` what happens otherwise.
- UsbPdPacket: edge timing; a bit is dequeued when the levels have an edge on both sides of it, a position is counted in bits, and finding the preamble is a parameter. The checksum is any function of header and data. Debug output, hard resets and the BIST mode.
- UsbPdPacket.DequeueBits: a position that is not positive, which the code would use as an index before the samples, is an error.
- UsbPdRxRing: the slots are records of header and payload; the alert register is a set of bits; transmitting and sampling the CC lines.
- ChargeManager: offers that change while the loops run, hardware ramping, logging, the power requests sent to the ports, and products that overflow 32 bits. Registering offers and setting overrides.
- JumpTags: the end of the jump data (panic data or end of RAM) is the same for both images; room for the tags is required, as the code requires it.
- Queue: the notification policies.
- SpiFlash: reading, status registers and write protection; a failed transaction changes nothing; data that alias the driver's buffer.
- SpiFlash.Driver.Write: with no bytes to write the result is unspecified, as in the code.
- PowerButton: the debouncing of the button itself, waking the chipset, and the task's sleep; the second reading of the clock when the initial pulse starts is the first one. The level before the start is released.
- PowerButton.HeldPress: only runs of the machine's own steps; `AssertedOnlyFor` and `QuietForFourSeconds` speak of every run.
- NorFlash: times; an operation takes effect when its command is accepted, and later commands are ignored until the busy bit was seen clear.
- The console and host commands, LEDs, lightbar, GPIO, PWM and fans: input and output with little state.
- `common/pd_log.c`, `common/sha1.c`, `common/math_util.c`, `common/tpm_registers.c`, and the charger state machines.
