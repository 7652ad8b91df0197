# ALT125x firmware: a verified model

This project models the parts of the ALT125x MCU firmware that hold real algorithms and
protocols, and proves what they keep: byte streams that lose nothing, transfers that obey
the bus, memory that only moves one way, searches that find the best answer, and the exact
conditions under which a driver does not do what it is for. `dafny verify dfyconfig.toml`
checks all of it.

| part | modules | main results |
|---|---|---|
| NCO frequency search, `DRV_GPTIMER.c` | `Gptimer` | the bounded search is optimal over all pairs; Dirichlet's bound; exactly which frequencies are refused |
| Time keeping, `timex.c` | `Timex` | conservation of ticks over any run; the loss per jump, and that its bound is reached |
| Checksum, `deltaupgmcu.py` | `CrcRegister`, `CrcTable`, `Memcrc` | the table form is the division one bit at a time; every error burst of up to 32 bits is detected |
| OTP fuses, `DRV_OTP.c` | `OtpBits`, `Otp`, `OtpDriver` | bit-exact unaligned reads; write-once over any run; read-back, exactly when it is faithful |
| Serial flash, `DRV_FLASH.c` | `Flash`, `FlashDriver` | the exact effect of a write for all alignments; stores stay in their page and match the count register; when verification succeeds |
| UART, `DRV_UART.c` | `UartRx`, `UartTx`, `UartBlock`, `UartDriver` | a lossless FIFO over every interleaving of interrupts and calls; every request ends once; no reader is stranded |
| I2C master, `DRV_I2C.c` | `I2cPlan`, `I2cMaster`, `I2cDriver` | the interrupt-driven transfer refines the blocking one, with and without failures; the bus protocol over any run; every transfer is reported once |
| Circular log, `sfpdb.c`, `sfplogger.c` | `SfpTiles`, `SfpLog`, `SfpDb`, `SfpStart` | the buffer stays an exact tiling and holds the latest entries in order; exactly when an append runs off its end; what a print shows |
| GPIO ids, `DRV_GPIO.c` | `Gpio`, `GpioDriver` | ids and pins stay a partial bijection; pin settings are restored over any run, and exactly which call breaks that |
| printf, `printf.c` | `PrintfText`, `PrintfIso`, `PrintfAlt`, `PrintfRead`, `PrintfFormat`, `PrintfSpec`, `PrintfStandard`, `PrintfArgs`, `PrintfDriver` | truncation is a prefix; a field is the one the C standard asks for exactly when a condition holds, and an integer then reads back; each conversion takes its own argument |

Each part has its entities as values, with what the operations do to them as functions and
the properties over whole runs as lemmas; and, in the `...Driver` modules, `SfpDb`, `OtpBits`
and the classes of `Gptimer` and `Timex`, the code in its own form, with fields, arrays and
loops, proved to do what the functions say. `Common` holds what several parts share.

## Conventions

- Bits of OTP and flash are sequences of booleans, the least significant first. Burning only
  sets bits and storing to flash only clears them. OTP cells may be weak and never burn.
- The hardware appears as parameters: how much room a FIFO has, whether a wait times out,
  which blocking I2C command fails, whether a pin's partition and multiplexer accesses are
  right. Theorems hold for all their values. An interrupt may run wherever it is not masked.
- A `char` is unsigned, as on the target; `int`, `long` and pointers have 32 bits and
  `long long` has 64. Wrap-around is written out where the code can reach it.
- An argument list of printf is a function of the position, with the bits or the string of
  each argument. The text of a floating-point conversion is a parameter.
- The magnitude of the smallest integer of a type, which the code gets by an overflow that C
  leaves undefined, is taken to be what the two's complement machine gives.

## What the code does not do

The model follows the code. Where that is not what its comments, its documentation or its
purpose promise, the exact condition is a theorem.

- `DRV_UART_Receive_Block` stores what it reads over the bytes it took from the ring buffer,
  so the stream is in order only if those were none or all (`UartBlock.InOrderExactlyWhen`).
- `DRV_UART_Get_Transmitted_Tx_Count` counts a send that was refused because the host
  interface did not answer as sent (`UartTx.CountIsWhatWasPushedExactlyWhen`). A handle
  without a callback stays busy after its first send that needs the interrupt
  (`UartTx.IrqFreesTheLineExactlyWhen`).
- `DRV_OTP_Set` ignores the outcome of its burns (`Otp.ReadBackIsFaithfulExactlyWhen`), and
  its size check wraps at 2 to the 29 bytes (`Otp.SizeCheck`, `Otp.WrappedSizeLocksEmptyField`).
  On a lock bit that does not burn a field can be written again as long as nothing was burnt
  (`Otp.SecondWriteExactlyWhen`).
- The address check of `DRV_FLASH_Write` wraps: it is right for the lengths that leave the
  partition its room in the address space, and for no other (`Flash.RangeCheckIsRightExactlyWhen`).
- An append to the log that would end one byte before the end of the buffer reads past it
  (`SfpLog.AppendRunsOffExactlyWhen`), and the length check of `sfp_log_str` forgets the
  header (`SfpDb.TextCheckIsEnoughExactlyWhen`). A print ends before an entry that begins
  with two zero bytes, and starts with the wrong one if the oldest begins with one
  (`SfpStart.PrintShowsTheLogExactlyWhen`).
- The error path of `DRV_GPIO_Initialize`, up to the reset of the block that ends it, sets all
  pins touched so far to the direction of the interface that failed (`GpioDriver.Driver.Initialize`).
  It does not look at the outcome of reading and writing the multiplexer, so settings come
  back only on a condition (`GpioDriver.SettingsComeBackExactlyWhen`).
- A 10-bit read sends both address bytes with the read bit in the first, which is not the
  combined format of section 3.1.11 of NXP UM10204; all other addresses are sent as it asks
  (`I2cPlan.AddressIsStandardExactlyWhen`).
- printf drops the zeros of a precision with `-`, and what goes beyond its 32-character
  buffer, the sign included (`PrintfIso.AgreesExactlyWhen`). With `#` it overwrites digits of
  a number as long as its width (`PrintfAlt.AltAgreesExactlyWhen`). It takes the argument of `%hhd` for
  an unsigned char, and a negative precision argument for zero instead of none, and widths
  and precisions wrap at 2 to the 32 (`PrintfStandard.ConversionAgreesExactlyWhen`,
  `PrintfStandard.TextConversionsAgreeExactlyWhen`). A format that ends inside a
  specification is read past its end; which ones do is `PrintfSpec.RenderedExactlyWhen` and
  `PrintfSpec.UnfinishedExactlyWhen`, and the theorems on printing are about the others.
- A tick jump loses the part of a second it completes, up to 999 ms of uptime
  (`Timex.LostPerEvent`, `Timex.LostIsTight`), and over the end of the 64-bit tick counter a
  millisecond is lost (`Timex.OverTheEnd`).

## Model

Paths are relative to the root of the firmware repository.

| member | source | states |
|---|---|---|
| `Gptimer.Nco.SetFrequency` | ALT125x/Driver/Source/DRV_GPTIMER.c:182-227 | Up to the clock: refused, with the registers untouched, exactly when f <= 0 or 65537*f <= clock; otherwise the best pair is in the registers, with its rate rounded to the nearest (down from halfway) and in 1..65535, and the frequency returned is within the Dirichlet bound. Above it: refused exactly when the best rate does not fit the field. The enable bit is kept. |
| `Gptimer.Search` | ALT125x/Driver/Source/DRV_GPTIMER.c:182-217 | The search loop returns a pair (rate, wrap) that minimises abs(f*w - r*clock) over every w in 1..65536 and every integer r, the smallest such w and the rate nearest to f*w/clock, down from halfway, for every positive f; a non-positive f gives no positive rate. |
| `Gptimer.TryWrap` | ALT125x/Driver/Source/DRV_GPTIMER.c:190-204 | One turn computes the least error any rate can have at this wrap value, zero exactly when it divides, and whether it is reached by rounding up. |
| `Gptimer.RateOf` | ALT125x/Driver/Source/DRV_GPTIMER.c:192 | The truncated quotient is the floor for positive frequencies and never positive otherwise. |
| `Gptimer.LeastErrorIsLeast` | ALT125x/Driver/Source/DRV_GPTIMER.c:197-204 | No integer rate comes closer at a wrap value than the smaller of the two remainders the loop looks at. |
| `Gptimer.EarliestLeastErrorIsBest` | ALT125x/Driver/Source/DRV_GPTIMER.c:190-217 | The earliest wrap value of least error is optimal over all pairs. |
| `Gptimer.ExactIsBest` | ALT125x/Driver/Source/DRV_GPTIMER.c:191-195 | Leaving the loop at the first exact wrap value loses nothing: that pair is optimal. |
| `Gptimer.BestSoFarIsBest` | ALT125x/Driver/Source/DRV_GPTIMER.c:190-217 | Running the loop to its end gives the optimum over all 65536 wrap values. |
| `Gptimer.BestIsUnique` | ALT125x/Driver/Source/DRV_GPTIMER.c:190-217 | There is only one best pair rounded like that, so the search has one right answer. |
| `Gptimer.Dirichlet` | ALT125x/Driver/Source/DRV_GPTIMER.c:182-217 | Some wrap value in 1..65536 has an error below clock/65536, whatever f is. |
| `Gptimer.BestIsWithinDirichlet` | ALT125x/Driver/Source/DRV_GPTIMER.c:182-217 | So the pair the search ends with has 65536*abs(f*wrap - rate*clock) < clock. |
| `Gptimer.BestRateRange` | ALT125x/Driver/Source/DRV_GPTIMER.c:219-221 | For 0 < f <= clock the best rate fits the 16-bit register field that the code masks it to. |
| `Gptimer.ZeroRateExactlyWhen` | ALT125x/Driver/Source/DRV_GPTIMER.c:219-221 | The rate is zero, so the request is refused, if and only if 65537*f <= clock. |
| `Gptimer.ActualFrequency` | ALT125x/Driver/Source/DRV_GPTIMER.c:222-224 | What is returned does not overflow 31 bits and lies within the bound of the frequency asked for. |
| `Timex.Conservation` | applib/timex.c:36-106 | Over any mix of ticks and jumps: the tick count is the elapsed time, the uncounted part is 0..1000, uptime never runs ahead, and between 0 and 999 ms are lost per jump. |
| `Timex.LostPerEvent` | applib/timex.c:77-106 | Exactly what one event adds to the uptime and what it loses: nothing up to a full second; past it the whole seconds are added, and a jump loses the rest. |
| `Timex.LostIsTight` | applib/timex.c:93-106 | The bound of 999 ms a jump is reached: n jumps of 1999 ms lose 999*n. |
| `Timex.TicksAloneLoseNothing` | applib/timex.c:77-91 | Without jumps nothing is lost, and after n > 0 ticks the uptime is exactly (n - 1) / 1000. |
| `Timex.UptimeIsMonotone` | applib/timex.c:36-106 | Neither the uptime nor the time lost ever goes back. |
| `Timex.OverTheEnd` | applib/timex.c:77-106 | When the 64-bit tick counter wraps, the counter of the seconds keeps step modulo 2 to the 63, and the difference of the two comes out one short. |
| `Timex.SystemTime` | applib/timex.c:50-69 | After setting T the time starts at T, never decreases, and never gains more than the elapsed time and a second. |
| `Timex.TimeKeeper.constructor` | applib/timex.c:30-34 | The static counters start as an empty history, with the system time at zero. |
| `Timex.TimeKeeper.TickHook` | applib/timex.c:77-91 | The hook, field by field, is the tick of the clock model. |
| `Timex.TimeKeeper.TraceTickCount` | applib/timex.c:93-106 | The jump hook, field by field, is the jump of the clock model. |
| `Timex.TimeKeeper.Time` | applib/timex.c:50-62 | Returns the time set plus the seconds counted since, the reading that SystemTime is about. |
| `Timex.TimeKeeper.SetTime` | applib/timex.c:64-69 | From then on the time is counted from the one set. |
| `Timex.TimeKeeper.Uptime` | applib/timex.c:71-75 | Returns the uptime of the history. |
| `CrcTable.TableIsEightSteps` | utils/deltaupgmcu.py:47-100 | Every one of the 256 literals of the table is eight division steps, with polynomial 0x04C11DB7, of its index. |
| `Memcrc.TableEntry` | utils/deltaupgmcu.py:47-100 | A look-up returns eight division steps of the index byte. |
| `Memcrc.TableStep` | utils/deltaupgmcu.py:124-128 | What the script computes from the table entry is the register after taking in the byte. |
| `Memcrc.FeedNext` | utils/deltaupgmcu.py:124-128 | The body of both loops takes one byte into the division register. |
| `Memcrc.Checksum` | utils/deltaupgmcu.py:121-133 | memcrc returns, for any bytes, the complement of the remainder of the message bits one at a time, the message being the data and its length in least-significant-first octets; which octets these are is LengthReadsBack and ShortestIsUnique. |
| `Memcrc.LengthReadsBack` | utils/deltaupgmcu.py:128-131 | The octets fed after the data, read least significant first, give back the length, and the last one is not zero. |
| `Memcrc.ShortestIsUnique` | utils/deltaupgmcu.py:128-131 | Octets that give back the length without a zero at the end are those and no others. |
| `Memcrc.KnownChecksums` | utils/deltaupgmcu.py:121-133 | Of no data the checksum is 0xffffffff, and of the letter a 0x48c279fe, as the cksum utility prints. |
| `Memcrc.BytesAsBits` | utils/deltaupgmcu.py:121-133 | Taking in bytes is taking in their bits, most significant first. |
| `Memcrc.FeedByteIsInjective` | utils/deltaupgmcu.py:124-128 | One byte step is a bijection on the register. |
| `Memcrc.FeedBytesIsInjective` | utils/deltaupgmcu.py:124-131 | The same bytes never bring two different registers together. |
| `Memcrc.BurstAsWord` | utils/deltaupgmcu.py:121-133 | Up to four bytes act as one word folded into the register. |
| `Memcrc.BurstIsInjective` | utils/deltaupgmcu.py:121-133 | Two different bursts of the same length up to four bytes never leave the same register. |
| `Memcrc.BurstIsDetected` | utils/deltaupgmcu.py:121-133 | Two messages of equal length that differ only inside four consecutive bytes (so, in particular, in one byte) have the same checksum if and only if they are equal. |
| `Memcrc.BitBurstAsWord` | utils/deltaupgmcu.py:121-133 | Up to 32 bits act as one word folded into the register. |
| `Memcrc.BitBurstIsDetected` | utils/deltaupgmcu.py:121-133 | Two messages of equal length whose bits differ only inside 32 consecutive ones, wherever these start, have the same checksum if and only if they are equal. |
| `OtpBits.ReadWordsBits` | ALT125x/Driver/Source/DRV_OTP.c:81-134 | Bit i of what is read is bit offset+i for i below the count, and zero from there on. |
| `OtpBits.ReadAligned` | ALT125x/Driver/Source/DRV_OTP.c:95-106 | The aligned loop fills exactly ceil(count/32) words with the right bits and touches no other. |
| `OtpBits.ReadUnaligned` | ALT125x/Driver/Source/DRV_OTP.c:107-128 | So does the unaligned loop, which puts each word together from two. |
| `OtpBits.BitsRead` | ALT125x/Driver/Source/DRV_OTP.c:81-134 | For any offset and count: the destination holds exactly the bits asked for, unused high bits of the last word are zero, and the words behind are untouched. |
| `OtpDriver.Driver.constructor` | ALT125x/Driver/Source/DRV_OTP.c:31-71 | The array starts without a burnt bit. |
| `OtpDriver.Driver.BurnWord` | ALT125x/Driver/Source/DRV_OTP.c:136-159 | A store only adds bits, those that are not weak; the result says whether all bits asked for are there. |
| `OtpDriver.Driver.BurnBit` | ALT125x/Driver/Source/DRV_OTP.c:161-186 | A negative address is refused; otherwise exactly the bit is burnt, and the result tells whether it took. |
| `OtpDriver.Driver.IsLocked` | ALT125x/Driver/Source/DRV_OTP.c:188-200 | Tells whether the lock bit of the field is burnt. |
| `OtpDriver.Driver.LockOtp` | ALT125x/Driver/Source/DRV_OTP.c:202-217 | Locks an unlocked field, and tells locked already, locked now and failed apart. |
| `OtpDriver.Driver.FieldGet` | ALT125x/Driver/Source/DRV_OTP.c:219-235 | Reads the first bits of the field, or refuses more than it has and leaves the buffer. |
| `OtpDriver.Driver.VerifyFieldContent` | ALT125x/Driver/Source/DRV_OTP.c:237-278 | Succeeds exactly when the field holds no burnt bit, given room on the heap. |
| `OtpDriver.Driver.BurnData` | ALT125x/Driver/Source/DRV_OTP.c:311-334 | The burning loops burn exactly the one bits of the data. |
| `OtpDriver.Driver.FieldWrite` | ALT125x/Driver/Source/DRV_OTP.c:282-342 | The status in every case, in the order of the checks; the array changes only with OTP_OK, and then by exactly the data and the lock. |
| `OtpDriver.Driver.Set` | ALT125x/Driver/Source/DRV_OTP.c:348-359 | Status and memory after DRV_OTP_Set are those of the reference, for every size, buffer and environment. |
| `OtpDriver.Driver.Get` | ALT125x/Driver/Source/DRV_OTP.c:361-372 | Status and buffer after DRV_OTP_Get are those of the reference; the rest of the buffer stays. |
| `Otp.FieldsAreApart` | ALT125x/Driver/Source/DRV_OTP.c:36-71 | The two fields and the two lock bits lie in the memory and none overlaps another; the fields have 128 and 64 bytes. |
| `Otp.SetAnswers` | ALT125x/Driver/Source/DRV_OTP.c:282-359 | Each answer of a Set has its condition, in the order of the checks; only OTP_OK changes the memory. |
| `Otp.SetBurns` | ALT125x/Driver/Source/DRV_OTP.c:311-337 | With OTP_OK exactly the one bits of the data and the lock bit are burnt, where the cells take them. |
| `Otp.GetAnswers` | ALT125x/Driver/Source/DRV_OTP.c:361-372 | A Get is refused exactly when the size is; else it delivers one word per 32 bits begun, with the first bits of the field and zeros behind. |
| `Otp.BitOfBurn` | ALT125x/Driver/Source/DRV_OTP.c:136-186 | Bit by bit: burning sets what is asked for and not weak, and clears nothing. |
| `Otp.StepIsMonotoneAndFramed` | ALT125x/Driver/Source/DRV_OTP.c:282-372 | No Set or Get clears a bit or touches a bit outside the addressed field and its lock; Set of a locked field changes nothing. |
| `Otp.RunIsMonotoneAndFramed` | ALT125x/Driver/Source/DRV_OTP.c:282-372 | The same over any run on both fields. |
| `Otp.StepKeepsLocked` | ALT125x/Driver/Source/DRV_OTP.c:282-372 | No call changes a locked field. |
| `Otp.LockedForever` | ALT125x/Driver/Source/DRV_OTP.c:282-372 | No run ever changes a locked field. |
| `Otp.WriteOnce` | ALT125x/Driver/Source/DRV_OTP.c:282-359 | After one OTP_OK on a lock bit that burns, and any run, a Set of that field never succeeds and changes nothing; with an accepted size and an open channel it returns OTP_LOCKED. SecondWriteExactlyWhen covers every lock bit. |
| `Otp.SecondWriteExactlyWhen` | ALT125x/Driver/Source/DRV_OTP.c:282-359 | After one OTP_OK and any run, another Set of the field returns OTP_OK if and only if the lock bit is weak, nothing was burnt by any call so far, and the call is right in itself. |
| `Otp.StaysClean` | ALT125x/Driver/Source/DRV_OTP.c:282-342 | On a weak lock bit, an empty field stays empty exactly when all one bits of the data fall on weak cells. |
| `Otp.Settled` | ALT125x/Driver/Source/DRV_OTP.c:282-372 | Once locked, or no longer empty, a field never changes again, over any run. |
| `Otp.ReadBackBits` | ALT125x/Driver/Source/DRV_OTP.c:282-372 | After OTP_OK and any run a Get of the size returns exactly the data, less the bits that fell on weak cells. On a weak lock bit that asks that something was burnt or that no later call burns anything. |
| `Otp.ReadBackIsFaithfulExactlyWhen` | ALT125x/Driver/Source/DRV_OTP.c:282-372 | The read-back is the buffer if and only if no one bit of the data falls on a weak cell: the driver ignores the outcome of its data burns. |
| `Otp.SizeCheck` | ALT125x/Driver/Source/DRV_OTP.c:348-372 | The size check in bits wraps at 2 to the 29 bytes; below that it is the check of the field size. |
| `Otp.WrappedSizeLocksEmptyField` | ALT125x/Driver/Source/DRV_OTP.c:348-359 | A size of 2 to the 29 bytes is accepted, writes nothing and locks the field. |
| `Flash.WrittenCell` | ALT125x/Driver/Source/DRV_FLASH.c:140-213 | A write leaves cell dst+i equal to old AND src[i] for i below the length, and every other cell as it was. |
| `Flash.WrittenInParts` | ALT125x/Driver/Source/DRV_FLASH.c:140-213 | Prefix, words and suffix one after the other make the whole write. |
| `Flash.PaddedWord` | ALT125x/Driver/Source/DRV_FLASH.c:164-213 | Storing a word padded with the old contents, or with ones, changes only the bytes of the data, whichever way they are combined. |
| `Flash.CountIsFourPerStore` | ALT125x/Driver/Source/DRV_FLASH.c:153-162 | What is written to the count register is four times the number of word stores that follow. |
| `Flash.PrefixThenRest` | ALT125x/Driver/Source/DRV_FLASH.c:164-213 | The stores of prefix, words and suffix are one store for each aligned word that the data touches. |
| `Flash.WordsStoredExactlyWhen` | ALT125x/Driver/Source/DRV_FLASH.c:153-213 | A page write stores an aligned word if and only if it holds one of the bytes, and none twice. |
| `Flash.StoresStayInPage` | ALT125x/Driver/Source/DRV_FLASH.c:140-213 | Every store of a page write is aligned and inside its 256-byte page, and the count is at most the page. |
| `Flash.PlaceInPage` | ALT125x/Driver/Source/DRV_FLASH.c:349-353 | The size the page loop computes stays in the page, and reaches its end unless the data ends. |
| `Flash.RangeCheck` | ALT125x/Driver/Source/DRV_FLASH.c:50-61 | For lengths that leave the partition its room in the address space, the check accepts exactly the ranges inside the partition. |
| `Flash.RangeCheckWraps` | ALT125x/Driver/Source/DRV_FLASH.c:50-61 | The shortest length that wraps is accepted at the end of the partition. |
| `Flash.LongRangePasses` | ALT125x/Driver/Source/DRV_FLASH.c:50-61 | So is every longer one. |
| `Flash.RangeCheckIsRightExactlyWhen` | ALT125x/Driver/Source/DRV_FLASH.c:50-61 | For every address the check accepts exactly the ranges inside the partition, if and only if the length and the size of the partition together are below 2 to the 32. |
| `Flash.VerifySucceedsExactlyWhen` | ALT125x/Driver/Source/DRV_FLASH.c:118-137 | After a write the verification succeeds if and only if src[i] has no one bit where the old cell had none, everywhere. |
| `Flash.WritingIsIdempotent` | ALT125x/Driver/Source/DRV_FLASH.c:323-380 | Writing the same data twice changes nothing more. |
| `FlashDriver.SfMemcmp` | ALT125x/Driver/Source/DRV_FLASH.c:73-79 | Zero exactly when the bytes agree. |
| `FlashDriver.SfMemcpy` | ALT125x/Driver/Source/DRV_FLASH.c:81-95 | Copies, or ANDs, the bytes into their place and leaves the others. |
| `FlashDriver.Controller.StoreWord` | ALT125x/Driver/Source/DRV_FLASH.c:140-213 | A store ANDs a word into the memory and is recorded. |
| `FlashDriver.Controller.StorePadded` | ALT125x/Driver/Source/DRV_FLASH.c:164-213 | A padded store has the effect of writing the data alone. |
| `FlashDriver.Controller.WritePrefix` | ALT125x/Driver/Source/DRV_FLASH.c:164-178 | The bytes up to the word boundary, in one store or none. |
| `FlashDriver.Controller.WriteWord` | ALT125x/Driver/Source/DRV_FLASH.c:182-196 | One word, from an aligned or unaligned source, with or without ANDing. |
| `FlashDriver.Controller.WriteWords` | ALT125x/Driver/Source/DRV_FLASH.c:180-201 | The whole words, one store each. |
| `FlashDriver.Controller.WriteSuffix` | ALT125x/Driver/Source/DRV_FLASH.c:203-213 | The bytes behind the last boundary, in one store or none. |
| `FlashDriver.Controller.WriteFromBoundary` | ALT125x/Driver/Source/DRV_FLASH.c:180-213 | Words and suffix together write the rest. |
| `FlashDriver.Controller.WritePage` | ALT125x/Driver/Source/DRV_FLASH.c:140-233 | A page write leaves exactly the data written, with the count and the stores in order, for all alignments and both values of the AND switch, and reports a timeout. |
| `FlashDriver.Controller.VerifyBuffer` | ALT125x/Driver/Source/DRV_FLASH.c:118-137 | Fails exactly when the flash differs from the source. |
| `FlashDriver.Controller.WriteNextPage` | ALT125x/Driver/Source/DRV_FLASH.c:349-362 | One turn of the page loop writes the bytes up to the end of the page or of the data. |
| `FlashDriver.Controller.WritePages` | ALT125x/Driver/Source/DRV_FLASH.c:349-362 | The pages partition what was written; the loop ends early exactly after the first page that times out, and then says so. |
| `FlashDriver.Controller.Write` | ALT125x/Driver/Source/DRV_FLASH.c:323-380 | Every status exactly when it is due: PARAMETER and ADDRESS_RANGE change nothing; VERIFY exactly when the flash differs from the data; otherwise TIMEOUT if and only if the last page written timed out, so that NONE means that none did and all of the data is written. The pages written end with the first that times out. What it asks of the length is the condition of RangeCheckIsRightExactlyWhen. |
| `FlashDriver.AcceptedWithoutTimeout` | ALT125x/Driver/Source/DRV_FLASH.c:323-380 | Cell by cell: old AND source inside the range, unchanged outside, and a verification error exactly when some source byte sets a bit that was clear. |
| `UartRx.IrqKeepsInv` | ALT125x/Driver/Source/DRV_UART.c:231-339 | The handler keeps: a pending request has an empty ring and unmasked interrupts, masked interrupts mean a full ring, and no byte lost. |
| `UartRx.StepKeepsInv` | ALT125x/Driver/Source/DRV_UART.c:231-339 | So does every event: an arrival, an interrupt, either part of a receive call, an abort. |
| `UartRx.RunKeepsInv` | ALT125x/Driver/Source/DRV_UART.c:231-339 | And every interleaving of them. |
| `UartRx.NothingSkipsTheQueue` | ALT125x/Driver/Source/DRV_UART.c:267-325 | What was taken from the data register and what waits in the FIFO is what arrived, in order. |
| `UartRx.ReceiveIsALosslessFifo` | ALT125x/Driver/Source/DRV_UART.c:110-339 | From a new handle, over every interleaving: bytes handed over, then in the user's buffer, then in the ring are exactly the accepted bytes taken, in order; a pending request is never masked nor has ring bytes; masked means full; the received count is exact. |
| `UartRx.IrqServesTheReader` | ALT125x/Driver/Source/DRV_UART.c:267-298 | The handler gives a pending request the bytes of the FIFO in order and ends it exactly when they are enough, leaving nothing behind otherwise. |
| `UartRx.CommitDrains` | ALT125x/Driver/Source/DRV_UART.c:802-824 | A receive call leaves the interrupts unmasked, and returns at once exactly when the ring had enough; otherwise it empties the ring and waits for the rest. |
| `UartRx.IrqMasksExactlyWhen` | ALT125x/Driver/Source/DRV_UART.c:267-338 | The handler masks itself exactly when it leaves words in the FIFO, and then the request is complete and the ring full; it reports a completion exactly when the request ends, and after it a break exactly when a word it took had one. |
| `UartRx.BeginAnswers` | ALT125x/Driver/Source/DRV_UART.c:784-799 | A receive call is refused, without effect, exactly for a length of zero or when a request is going on. |
| `UartRx.AbortTellsWhatCame` | ALT125x/Driver/Source/DRV_UART.c:841-860 | In every reachable state an abort returns the number of bytes the request got, or -1 exactly when there is none; it takes nothing back and leaves the interrupts on. |
| `UartRx.EveryRequestEndsOnce` | ALT125x/Driver/Source/DRV_UART.c:231-339 | Over every run: each waiting request ends in exactly one completion callback or one abort. |
| `UartTx.StepKeepsInv` | ALT125x/Driver/Source/DRV_UART.c:239-264 | Every send, interrupt and abort keeps: the wire and the unsent tail make the data, and TX_EMPTY is masked whenever no tail is pending. |
| `UartTx.Run` | ALT125x/Driver/Source/DRV_UART.c:239-264 | So does every run of sends, interrupts and aborts. |
| `UartTx.SendConservesBytes` | ALT125x/Driver/Source/DRV_UART.c:239-264 | Over every run: bytes on the wire are those of ended sends and the sent part of the current one; an idle line is masked; with a callback, busy, unmasked and an unsent tail are the same. |
| `UartTx.SendAnswers` | ALT125x/Driver/Source/DRV_UART.c:862-902 | Each answer of a send call has its condition; an accepted one pushes as much of the data as there is room for, in order, and leaves the rest to the interrupt. |
| `UartTx.IrqPushes` | ALT125x/Driver/Source/DRV_UART.c:239-252 | The interrupt pushes the next of the bytes left, as many as there is room for. |
| `UartTx.AbortTellsWhatWentOut` | ALT125x/Driver/Source/DRV_UART.c:825-840 | In every reachable state an abort returns the number of bytes of the send that went out, or -1 exactly when there is none; nothing more goes out. |
| `UartTx.EverySendEndsOnce` | ALT125x/Driver/Source/DRV_UART.c:239-264 | Each send that waits ends in exactly one completion or one abort. |
| `UartTx.IrqFreesTheLineExactlyWhen` | ALT125x/Driver/Source/DRV_UART.c:239-264 | The handler frees the line if and only if there is a callback and the FIFO takes the rest; without a callback the handle stays busy. |
| `UartTx.CountIsWhatWasPushedExactlyWhen` | ALT125x/Driver/Source/DRV_UART.c:528-531 | After a send call the transmitted count is the number of bytes pushed if and only if the host interface answered. |
| `UartBlock.Receive` | ALT125x/Driver/Source/DRV_UART.c:731-783 | Where a blocking receive stores: what it reads goes to the start of the buffer, over the ring's bytes. |
| `UartBlock.InOrderExactlyWhen` | ALT125x/Driver/Source/DRV_UART.c:757-777 | A blocking receive delivers the stream in order for all data if and only if the ring gave nothing or everything. |
| `UartDriver.TakeOut` | ALT125x/Driver/Source/DRV_UART.c:130-146 | Moving the tail takes the first byte off the ring. |
| `UartDriver.PutIn` | ALT125x/Driver/Source/DRV_UART.c:310-316 | Storing at the head puts a byte behind the others. |
| `UartDriver.IrqInTwoLoops` | ALT125x/Driver/Source/DRV_UART.c:267-325 | The loop for the user and the loop for the ring together are the one step of the state machine. |
| `UartDriver.Handle.constructor` | ALT125x/Driver/Source/DRV_UART.c:684-715 | A new handle is the initial state. |
| `UartDriver.Handle.Available` | ALT125x/Driver/Source/DRV_UART.c:110-125 | The number of bytes in the ring, always below its size. |
| `UartDriver.Handle.IsRingbufferFull` | ALT125x/Driver/Source/DRV_UART.c:177-187 | Full exactly when one place is left. |
| `UartDriver.Handle.GetByte` | ALT125x/Driver/Source/DRV_UART.c:130-146 | Takes the oldest byte. |
| `UartDriver.Handle.GetBytes` | ALT125x/Driver/Source/DRV_UART.c:156-176 | Copies the oldest bytes in order, as many as there are or as are wanted. |
| `UartDriver.Handle.PutByte` | ALT125x/Driver/Source/DRV_UART.c:310-316 | Adds a byte behind the others. |
| `UartDriver.Handle.IsValidData` | ALT125x/Driver/Source/DRV_UART.c:200-229 | The status for every combination of flags: the last set of frame, break, overrun and parity names it. A word counts exactly with none or with the overrun as its status; a break is remembered. |
| `UartDriver.Handle.ServeUser` | ALT125x/Driver/Source/DRV_UART.c:270-298 | The user's loop stores exactly the accepted bytes in order and completes the request once. |
| `UartDriver.Handle.FillRing` | ALT125x/Driver/Source/DRV_UART.c:301-324 | The ring's loop adds the accepted bytes in order and masks the interrupts exactly when it leaves words behind. |
| `UartDriver.Handle.RxIrq` | ALT125x/Driver/Source/DRV_UART.c:267-325 | The handler on the fields is the step of the state machine, and the user's buffer holds its bytes. |
| `UartDriver.Handle.BeginReceive` | ALT125x/Driver/Source/DRV_UART.c:784-802 | The checks of a receive call and its claim on the line. |
| `UartDriver.Handle.FinishReceive` | ALT125x/Driver/Source/DRV_UART.c:802-824 | The rest of it, with interrupts masked, is the second event of the state machine. |
| `UartDriver.Handle.ReceiveNonblock` | ALT125x/Driver/Source/DRV_UART.c:784-824 | A receive call, with any arrivals and interrupts between its parts, is the two events with those between; on success the buffer starts with the bytes. |
| `UartDriver.Handle.TakeInterrupts` | ALT125x/Driver/Source/DRV_UART.c:231-339 | Any sequence of arrivals and interrupts on the fields is that run of the state machine. |
| `UartDriver.Handle.AbortReceive` | ALT125x/Driver/Source/DRV_UART.c:841-860 | An abort on the fields is that of the state machine; it returns the number of bytes in the user buffer of the request, or -1 without one. |
| `UartDriver.Sender.constructor` | ALT125x/Driver/Source/DRV_UART.c:684-715 | A new handle has nothing to send. |
| `UartDriver.Sender.SendNonblock` | ALT125x/Driver/Source/DRV_UART.c:862-902 | A send call on the fields is that of the state machine, with every status. |
| `UartDriver.Sender.TxIrq` | ALT125x/Driver/Source/DRV_UART.c:239-264 | So is the handler. |
| `UartDriver.Sender.PushTail` | ALT125x/Driver/Source/DRV_UART.c:241-252 | The loop pushes the next bytes of the tail in order, as many as fit. |
| `UartDriver.Sender.AbortSend` | ALT125x/Driver/Source/DRV_UART.c:825-840 | An abort on the fields is that of the state machine; it returns the number of bytes pushed to the data register for the send, or -1 without one. |
| `I2cPlan.AddressEncoding` | ALT125x/Driver/Source/DRV_I2C.c:437-445 | The slave parameter has a high byte exactly for 10-bit addresses, carries the direction where the check macro looks for it, and holds the two bytes or the one of the address. |
| `I2cPlan.AddressEncodingIsInjective` | ALT125x/Driver/Source/DRV_I2C.c:437-445 | Two addresses that the driver tells apart never share a parameter. |
| `I2cPlan.AddressBytes` | ALT125x/Driver/Source/DRV_I2C.c:651-707 | What goes out on the bus for the start and the address, byte by byte. |
| `I2cPlan.AddressIsStandardExactlyWhen` | ALT125x/Driver/Source/DRV_I2C.c:437-445 | The address phase is the one of section 3.1.11 of NXP UM10204 if and only if the transfer writes or the address has 7 bits. |
| `I2cPlan.TenBitReadDiffers` | ALT125x/Driver/Source/DRV_I2C.c:437-445 | A read from the 10-bit address 0x123 sends F3, 23; the standard asks for F2, 23, a repeated start and F3. |
| `I2cPlan.PlanIsLegal` | ALT125x/Driver/Source/DRV_I2C.c:631-904 | Every prefix of a transfer's commands obeys the bus: START when free, RESTART when held, data and STOP in between. |
| `I2cPlan.WholePlan` | ALT125x/Driver/Source/DRV_I2C.c:709-904 | All that a transfer sends, by itself: the start, the address bytes, each byte of data once and in order or as many reads with a NACK for the last alone, and a STOP unless the bus is to stay held. |
| `I2cMaster.BeginKeepsInv` | ALT125x/Driver/Source/DRV_I2C.c:631-707 | A transfer started on an idle master is at the first command of its plan. |
| `I2cMaster.DoneFollowsThePlan` | ALT125x/Driver/Source/DRV_I2C.c:271-372 | A Done interrupt writes the next command of the plan, or ends the transfer after the last; the default branch is never taken. |
| `I2cMaster.DoneKeepsInv` | ALT125x/Driver/Source/DRV_I2C.c:271-372 | The Done handler keeps the invariant: state, count, remaining number, outstanding command and log belong together. |
| `I2cMaster.NackKeepsInv` | ALT125x/Driver/Source/DRV_I2C.c:374-395 | So does the Nack handler. |
| `I2cMaster.ForceKeepsInv` | ALT125x/Driver/Source/DRV_I2C.c:425-435 | So does a forced stop. |
| `I2cMaster.ForcedEnds` | ALT125x/Driver/Source/DRV_I2C.c:358-435 | An abort or bus clear ends with the Done of its STOP: the bus is free, the callback is told the cause and the faults before it, and the next transfer begins with START. |
| `I2cMaster.BlockKeepsInv` | ALT125x/Driver/Source/DRV_I2C.c:709-904 | And a blocking transfer, however it ends. |
| `I2cMaster.BlockIsLegal` | ALT125x/Driver/Source/DRV_I2C.c:709-904 | What a blocking transfer writes obeys the bus, with every failure. |
| `I2cMaster.DoneCounts` | ALT125x/Driver/Source/DRV_I2C.c:308-361 | A Done moves the count and stores the byte read as the plan says. |
| `I2cMaster.DonesFollowThePlan` | ALT125x/Driver/Source/DRV_I2C.c:271-372 | After k Done interrupts the master is at command k of the plan, with the count and the buffer to match. |
| `I2cMaster.NonblockRefinesBlock` | ALT125x/Driver/Source/DRV_I2C.c:271-372 | For every address, direction, length and pending flag: under Done interrupts the interrupt-driven transfer leaves the same command log, buffer, count and pending flag as the blocking one, and reports DONE once. |
| `I2cMaster.NonblockFailsLikeBlock` | ALT125x/Driver/Source/DRV_I2C.c:374-395 | With a Nack at any command it leaves what the blocking one leaves when that command fails, and reports an address NACK or an incomplete transfer once. |
| `I2cMaster.NextKeepsInv` | ALT125x/Driver/Source/DRV_I2C.c:271-435 | Every step keeps the invariant. |
| `I2cMaster.Run` | ALT125x/Driver/Source/DRV_I2C.c:271-435 | So does every run of transfers in both forms, interrupts, aborts and bus clears. |
| `I2cMaster.EveryRunObeysTheBus` | ALT125x/Driver/Source/DRV_I2C.c:271-435 | Over every run: START only on a free bus and RESTART only on a held one, one command outstanding exactly when the state is not IDLE, no unreachable state entered, and the log of a running transfer is a prefix of its plan. |
| `I2cMaster.StepReports` | ALT125x/Driver/Source/DRV_I2C.c:271-435 | A step reports at most once; DONE alone, and then with all bytes counted. |
| `I2cMaster.EveryTransferIsReportedOnce` | ALT125x/Driver/Source/DRV_I2C.c:271-435 | Over every run, with errors and aborts: each transfer started is reported exactly once, or still running. |
| `I2cDriver.Peripheral.MasterTransferNonblock` | ALT125x/Driver/Source/DRV_I2C.c:631-707 | Every status exactly when it is due, in the order of the checks; a refused call changes nothing, an accepted one starts the transfer of the state machine. |
| `I2cDriver.Peripheral.DoneEventHandler` | ALT125x/Driver/Source/DRV_I2C.c:271-372 | The handler on the fields is the Done step, and returns the event reported. |
| `I2cDriver.Peripheral.NackEventHandler` | ALT125x/Driver/Source/DRV_I2C.c:374-395 | The handler on the fields is the Nack step. |
| `I2cDriver.Peripheral.IrqHandler` | ALT125x/Driver/Source/DRV_I2C.c:397-423 | An interrupt with one cause is one step, with its report. |
| `I2cDriver.Peripheral.ForceStop` | ALT125x/Driver/Source/DRV_I2C.c:425-435 | A forced stop on the fields is that of the state machine. |
| `I2cDriver.Peripheral.WriteAndWait` | ALT125x/Driver/Source/DRV_I2C.c:204-234 | A blocking command is written unless refused, and succeeds as the outcome says. |
| `I2cDriver.Peripheral.Address` | ALT125x/Driver/Source/DRV_I2C.c:740-769 | The start and address commands of the plan, with the error of each. |
| `I2cDriver.Peripheral.WriteData` | ALT125x/Driver/Source/DRV_I2C.c:771-782 | The loop writes the data of the plan and counts. |
| `I2cDriver.Peripheral.ReadData` | ALT125x/Driver/Source/DRV_I2C.c:866-884 | The loop reads the data of the plan, with NACK only on the last, stores and counts. |
| `I2cDriver.Peripheral.Transfer` | ALT125x/Driver/Source/DRV_I2C.c:709-904 | The whole blocking transfer on the fields: status, log, count and buffer for every outcome. |
| `I2cDriver.Peripheral.MasterTransferBlock` | ALT125x/Driver/Source/DRV_I2C.c:709-904 | A blocking call is the step of the state machine. PARAMETER, UNINIT and PWRCFG exactly when they are due, in the order of the checks, and then nothing changes; OK exactly when an accepted call has no failure; the others as StatusNamesTheCommand says. |
| `I2cDriver.Peripheral.CheckRequest` | ALT125x/Driver/Source/DRV_I2C.c:711-721 | The checks of all four calls, each with its own condition. |
| `I2cDriver.StatusNamesTheCommand` | ALT125x/Driver/Source/DRV_I2C.c:709-904 | The status of an accepted blocking call names the command that failed: the start, the first of two address bytes, the last address byte, a byte of data, one that did not come, or the STOP. |
| `I2cDriver.Peripheral.AbortTransfer` | ALT125x/Driver/Source/DRV_I2C.c:963-974 | Refused exactly before initialization; else a forced stop that reports an incomplete transfer. |
| `I2cDriver.Peripheral.ClearBus` | ALT125x/Driver/Source/DRV_I2C.c:950-962 | The same, reporting a bus clear. |
| `SfpTiles.SizeByMasks` | middleware/sfplogger/sfpdb.c:57-70 | The chain of mask tests gives every byte a type: the last branch is never taken, and no entry but a filler is shorter than 2 or longer than the longest. |
| `SfpLog.RoomFound` | middleware/sfplogger/sfpdb.c:54-75 | The scan stays in the buffer, ends on a boundary, and clears enough for the entry and a filler header or exactly the entry. |
| `SfpLog.RoomIsLeast` | middleware/sfplogger/sfpdb.c:54-75 | No entry is cleared that could stay: at no boundary before the end of the room found is there room for the entry exactly, or for it and two bytes. |
| `SfpLog.RoomRunsOffExactlyWhen` | middleware/sfplogger/sfpdb.c:54-75 | The scan runs past the buffer if and only if the entry would end one byte before its end. |
| `SfpLog.ZeroedBufferIsALog` | middleware/sfplogger/sfpdb.c:28-87 | A zeroed buffer is a log if its size is a multiple of the regular entry's. |
| `SfpLog.MarkReadsBack` | middleware/sfplogger/sfpdb.c:77-84 | A filler's size can be read back from its header, and nothing else changes. |
| `SfpLog.PlacedFront` | middleware/sfplogger/sfpdb.c:77-86 | The entries before the place stay, with the new one behind them. |
| `SfpLog.PlacedBack` | middleware/sfplogger/sfpdb.c:77-86 | The entries behind the room stay, with a filler for what is left of it. |
| `SfpLog.WrapKeepsInv` | middleware/sfplogger/sfpdb.c:34-47 | Wrapping closes the end with a filler that hides what was there, and keeps the entries from the start. |
| `SfpLog.StartKeepsInv` | middleware/sfplogger/sfpdb.c:32-49 | The place for an entry is on a boundary with room for it before the end. |
| `SfpLog.PlaceIsFifo` | middleware/sfplogger/sfpdb.c:49-87 | Placing an entry drops the oldest entries and adds it as the newest. |
| `SfpLog.AppendIsFifo` | middleware/sfplogger/sfpdb.c:28-87 | So does an append, with its wrap. |
| `SfpLog.AppendTakesThePlace` | middleware/sfplogger/sfpdb.c:28-87 | An entry goes to the next place if it ends in the buffer there, and else to its start; the bytes before it stay, and so do those behind its room, which ends at the first boundary that will do. |
| `SfpLog.AppendKeepsInv` | middleware/sfplogger/sfpdb.c:28-87 | An append leaves an exact tiling with the next place on a boundary, and fillers that fit their header. |
| `SfpLog.AppendRunsOffExactlyWhen` | middleware/sfplogger/sfpdb.c:28-87 | An append runs past the buffer if and only if the entry would end one byte before its end. |
| `SfpLog.AppendMayRunOff` | middleware/sfplogger/sfpdb.c:28-87 | It happens: a string of 33 bytes first in a zeroed buffer of 40. |
| `SfpLog.LogHoldsTheLatest` | middleware/sfplogger/sfpdb.c:28-87 | Over any run of appends the log is an exact tiling and its contents are a suffix of everything logged, in order, never empty after an append. |
| `SfpDb.EarliestIsABoundary` | middleware/sfplogger/sfpdb.c:89-117 | The earliest entry is on a boundary. |
| `SfpDb.NumberEntry` | middleware/sfplogger/sfplogger.c:210-229 | The entry of sfp_log says its own size: one high bit 0, or 10 for the extended one; the bits below and all other bytes are those of the data. |
| `SfpDb.StringEntry` | middleware/sfplogger/sfplogger.c:318-341 | The entry of sfp_log_str says its own size and has the type, the severity, the length, the time and the text in their places. |
| `SfpDb.TextCheckIsEnoughExactlyWhen` | middleware/sfplogger/sfplogger.c:354-356 | The length check of sfp_log_str, which leaves out the header, keeps entries that do not fit away if and only if the buffer has no byte or at least 86. |
| `SfpDb.AllPrinted` | middleware/sfplogger/sfplogger.c:376-422 | A walk over a stretch without empty entries prints all its entries. |
| `SfpDb.PrintShowsTheLog` | middleware/sfplogger/sfplogger.c:376-422 | From an oldest entry that does not start with a zero byte, a print shows exactly the contents of the log, oldest first. |
| `SfpDb.PrintShowsTheStart` | middleware/sfplogger/sfplogger.c:376-422 | While there is never-written room behind the next place and the filler there may be, a print starts at the start of the buffer and shows the entries from there on, if and only if none of them starts with two zero bytes. |
| `SfpDb.PrintMayStartWrong` | middleware/sfplogger/sfpdb.c:89-117 | If there is a zero byte where get_earliest_entry looks, at the next place or behind a filler there, the print starts with the entries at the front of the buffer. |
| `SfpDb.PrintShowsTheBufferExactlyWhen` | middleware/sfplogger/sfplogger.c:376-422 | A print shows all entries in the buffer, never-written ones among them, oldest first, if and only if none starts with two zero bytes, and either there is no zero byte where get_earliest_entry looks or both orders are the same. |
| `SfpStart.FreshAppend` | middleware/sfplogger/sfpdb.c:28-87 | An append without a wrap to a log whose rest was never written keeps it so, and adds one entry. |
| `SfpStart.FreshWraps` | middleware/sfplogger/sfpdb.c:34-47 | When the log wraps, what was never written is gone for good: the buffer holds entries that were logged, the latest. |
| `SfpStart.RunLogs` | middleware/sfplogger/sfpdb.c:28-87 | Over any run from a new log: either everything logged is there and the rest was never written, or all entries in the buffer are the ones logged last. |
| `SfpStart.PrintShowsTheLogExactlyWhen` | middleware/sfplogger/sfplogger.c:376-422 | After any run from a new log a print shows exactly what the log holds of what was logged, oldest first, if and only if none of that starts with two zero bytes and, unless everything is still there with never-written room behind, there is no zero byte where get_earliest_entry looks or both orders are the same. |
| `SfpDb.OldestStartsWithZero` | middleware/sfplogger/sfpdb.c:89-117 | A log, reached by three appends to a new buffer, that is printed in the wrong order. |
| `SfpDb.OldestStartsWithZeroBehindFiller` | middleware/sfplogger/sfpdb.c:97-109 | Another one, where the zero byte is behind a filler. |
| `SfpDb.PrintEndsEarly` | middleware/sfplogger/sfplogger.c:383-385 | A log with an entry that starts with two zero bytes, which is not printed. |
| `SfpDb.Database.constructor` | middleware/sfplogger/sfplogger.c:748-766 | A new database is a zeroed buffer. |
| `SfpDb.Database.WriteFiller` | middleware/sfplogger/sfpdb.c:77-84 | Writes a filler header and nothing else. |
| `SfpDb.Database.WrapIfNeeded` | middleware/sfplogger/sfpdb.c:34-47 | The wrap, in place. |
| `SfpDb.Database.ClearRoom` | middleware/sfplogger/sfpdb.c:54-75 | The scan finds the room of the model. |
| `SfpDb.Database.GetNextEntry` | middleware/sfplogger/sfpdb.c:28-87 | Returns the place, moves on, and leaves a filler for the room that is left. |
| `SfpDb.Database.CopyIn` | middleware/sfplogger/sfplogger.c:255 | The caller's copy overwrites the room and nothing else. |
| `SfpDb.Database.LogEntry` | middleware/sfplogger/sfplogger.c:249-256 | get_next_entry and the copy are the append of the model. |
| `SfpDb.Database.LogNumbers` | middleware/sfplogger/sfplogger.c:234-261 | An entry too long is refused, one that is prevented changes nothing, any other is appended. |
| `SfpDb.Database.LogString` | middleware/sfplogger/sfplogger.c:346-375 | The same for a string, with the check the code makes. |
| `SfpDb.Database.GetEarliestEntry` | middleware/sfplogger/sfpdb.c:89-117 | Returns the earliest entry. |
| `SfpDb.Database.PrintDbBuffer` | middleware/sfplogger/sfplogger.c:376-422 | Prints the walk of the model from the earliest entry, ends, and stays on boundaries. |
| `SfpDb.Database.WalkFrom` | middleware/sfplogger/sfplogger.c:376-422 | The loop of the walk, around the end of the buffer at most once. |
| `Gpio.IdFrom` | ALT125x/Driver/Source/DRV_GPIO.c:670-709 | The lowest id with the pin, or none. |
| `Gpio.OpenFinds` | ALT125x/Driver/Source/DRV_GPIO.c:670-709 | Open returns the pin's id if it has one, else the lowest free id, and fails for lack of ids exactly when all are mapped. |
| `Gpio.OpenAnswers` | ALT125x/Driver/Source/DRV_GPIO.c:670-709 | Each answer of Open has its condition, in the order of the checks; without OK no mapping or setting changes. |
| `Gpio.OpenTakesThePin` | ALT125x/Driver/Source/DRV_GPIO.c:670-709 | A pin that gets an id gets the multiplexer setting 4, and the id remembers the setting before if it could be read; nothing else changes. |
| `Gpio.CloseAnswers` | ALT125x/Driver/Source/DRV_GPIO.c:711-727 | Each answer of Close has its condition; with OK the pin is unmapped and gets the setting its id remembers. |
| `Gpio.QueryAnswers` | ALT125x/Driver/Source/DRV_GPIO.c:649-668 | Each answer of a query has its condition; it leaves a changed setting exactly when it could not put the old one back. |
| `Gpio.StepKeepsInv` | ALT125x/Driver/Source/DRV_GPIO.c:213-236 | Every call, with every multiplexer outcome, keeps the two tables a partial bijection. |
| `Gpio.StepRestoresExactlyWhen` | ALT125x/Driver/Source/DRV_GPIO.c:649-727 | A call keeps every unmapped pin at its first setting, and that setting recorded for mapped ones, if and only if it is none of the failing calls named by Spoils. |
| `Gpio.Run` | ALT125x/Driver/Source/DRV_GPIO.c:649-727 | Any run keeps the bijection. |
| `Gpio.RunsRestore` | ALT125x/Driver/Source/DRV_GPIO.c:649-727 | Over any run with successful multiplexer accesses, every unmapped pin has the setting it had before the driver touched it. |
| `Gpio.OpenThenCloseRestores` | ALT125x/Driver/Source/DRV_GPIO.c:670-727 | Closing a pin that was opened gives it the setting it had before, whatever happened in between. |
| `GpioDriver.Driver.SetPinset` | ALT125x/Driver/Source/DRV_GPIO.c:213-228 | Maps a pin that has no id, in both tables, or refuses with the status of its cause and changes nothing. |
| `GpioDriver.Driver.ClearPinset` | ALT125x/Driver/Source/DRV_GPIO.c:230-236 | Unmaps in both tables. |
| `GpioDriver.Driver.Search` | ALT125x/Driver/Source/DRV_GPIO.c:670-709 | The loop finds the pin's id and the lowest free one. |
| `GpioDriver.Driver.Open` | ALT125x/Driver/Source/DRV_GPIO.c:670-709 | Open on the arrays is that of the model, with every status. |
| `GpioDriver.Driver.Close` | ALT125x/Driver/Source/DRV_GPIO.c:711-727 | So is Close. |
| `GpioDriver.Driver.QueryPinValue` | ALT125x/Driver/Source/DRV_GPIO.c:649-668 | So is a query, which borrows the multiplexer. |
| `GpioDriver.Driver.Configure` | ALT125x/Driver/Source/DRV_GPIO.c:328-350 | One static interface: its pin gets the id exactly when it is allowed, there and free, and its direction exactly when the setting is written too; the setting is recorded if it could be read. |
| `GpioDriver.Driver.ConfigureAll` | ALT125x/Driver/Source/DRV_GPIO.c:320-351 | All of them, up to the first that is bad; which pins have ids, settings and directions then. |
| `GpioDriver.Driver.Undo` | ALT125x/Driver/Source/DRV_GPIO.c:359-374 | The error path gives all mapped pins the direction of the interface read last, and each the setting that could be read and written, pin by pin. |
| `GpioDriver.Driver.Abandon` | ALT125x/Driver/Source/DRV_GPIO.c:359-380 | After it no pin is mapped; exactly the touched pins have the direction of the bad interface, and their settings are told one by one. |
| `GpioDriver.Driver.Initialize` | ALT125x/Driver/Source/DRV_GPIO.c:290-387 | Succeeds at once when done before, else exactly when it is prepared and all interfaces are good, and then maps and directs them all. Otherwise no pin is mapped, directions are those the second reset leaves, and before that reset settings and directions are as Abandoned says; for every multiplexer outcome and whatever the resets leave. |
| `GpioDriver.RecordedRestoresExactlyWhen` | ALT125x/Driver/Source/DRV_GPIO.c:334-342 | After initialization every pin has its first setting, or its id remembers it, if and only if each setting that could not be read was zero. |
| `GpioDriver.SettingsComeBackExactlyWhen` | ALT125x/Driver/Source/DRV_GPIO.c:359-374 | After the error path every setting is what it was if and only if each touched one could be read and put back, or was the same anyway. |
| `GpioDriver.SettingIsLost` | ALT125x/Driver/Source/DRV_GPIO.c:334-374 | Two interfaces for which one is not. |
| `PrintfText.DigitLoopIsNumeral` | middleware/printf/printf.c:281-326 | With room for it the digit loop makes the numeral of the value, backwards; otherwise it fills the room. |
| `PrintfText.SameDigit` | middleware/printf/printf.c:293-298 | The character the loop computes for a digit is the one in the list of hexadecimal digits, in the case asked for. |
| `PrintfIso.CodeShape` | middleware/printf/printf.c:227-277 | What the code prints: padding, then sign, zeros and digits, in any case. |
| `PrintfIso.MeetingAgrees` | middleware/printf/printf.c:227-326 | Where the condition holds the field is that of section 7.21.6.1 of ISO/IEC 9899:2011. |
| `PrintfIso.CodeMeasures` | middleware/printf/printf.c:227-326 | Length and number of non-blank characters of what the code prints. |
| `PrintfIso.AgreesExactlyWhen` | middleware/printf/printf.c:227-326 | Without the flag #, the field is the standard's if and only if the condition holds: digits, precision and zero padding fit the 32-character buffer, and '-' has no precision above the digits. |
| `PrintfAlt.AltCodeShape` | middleware/printf/printf.c:227-277 | What the code prints with #: zeros and digits, of which the prefix takes the place of some when there are as many as the width says. |
| `PrintfAlt.AltFieldShape` | middleware/printf/printf.c:227-277 | What the standard asks for with #: 0x or 0X before a hexadecimal number that is not zero, and a zero as the first digit of an octal one. |
| `PrintfAlt.AltAgreesExactlyWhen` | middleware/printf/printf.c:227-326 | With # the field is the standard's if and only if the condition holds, which in the main says that the number of digits is not the width, unless zeros fill it up, and that an octal number has no zeros of a precision. |
| `PrintfAlt.DigitsAreOverwritten` | middleware/printf/printf.c:242-262 | "%#4x" of 0x1234 prints 0x34, where the standard asks for 0x1234. |
| `PrintfRead.NumeralReadsBack` | middleware/printf/printf.c:281-326 | Parsing a numeral gives the value, in every base from 2 to 16. |
| `PrintfRead.IsoReadsBack` | middleware/printf/printf.c:684-756 | Parsing the standard's field, sign, blanks and zeros included, gives sign and value. |
| `PrintfRead.CodeReadsBack` | middleware/printf/printf.c:684-756 | So does parsing what the code prints, where the condition holds. |
| `PrintfRead.SmallFieldsReadBack` | middleware/printf/printf.c:684-756 | It holds, and the value reads back, for width and precision up to 31, no '-' with a precision, and base 2 on 32 bits only. |
| `PrintfStandard.SpecAgainst` | middleware/printf/printf.c:597-680 | From the text of a specification: the code reads the flags, size and arguments that the standard does, and the same width and precision unless they wrap at 2 to the 32; but a negative precision argument, which the standard takes as none, it reads as zero. |
| `PrintfStandard.FieldAgreesExactlyWhen` | middleware/printf/printf.c:684-756 | For each of d, i, u, x, X, o with every flag and length modifier, and b without #: the field is the one of section 7.21.6.1 of ISO/IEC 9899:2011, written down without the code's functions, hh with d or i being a signed char, if and only if no number wrapped, the value is not one of a negative char, the condition of AgreesExactlyWhen or AltAgreesExactlyWhen holds, and an omitted precision makes no difference. |
| `PrintfStandard.ConversionAgreesExactlyWhen` | middleware/printf/printf.c:597-756 | The same from the text of the specification, read as the standard does; and where it holds, parsing a field without 0x gives back the value that the standard gives the argument. |
| `PrintfStandard.OmittedExactlyWhen` | middleware/printf/printf.c:639-643 | With a negative precision argument the field is right if and only if the value is not zero, no zeros are to fill the width, and the condition of AgreesExactlyWhen holds. |
| `PrintfStandard.AltOmittedExactlyWhen` | middleware/printf/printf.c:639-643 | With # too, a negative precision argument makes no difference if and only if the value is not zero and no zeros are to fill the width. |
| `PrintfStandard.StringAgreesExactlyWhen` | middleware/printf/printf.c:796-820 | A string field is the standard's if and only if the width did not wrap and nothing of the string is dropped that the standard keeps, but for blanks in the place of padding. |
| `PrintfStandard.CharAgreesExactlyWhen` | middleware/printf/printf.c:776-794 | A character field is the standard's if and only if the width did not wrap. |
| `PrintfStandard.TextConversionsAgreeExactlyWhen` | middleware/printf/printf.c:597-849 | The same from the text of the specification, for strings, characters and the percent sign. |
| `PrintfStandard.PointerIsEightDigits` | middleware/printf/printf.c:822-838 | A pointer is printed as eight upper-case hexadecimal digits, whatever the width, without flags that change that. |
| `PrintfStandard.HhdOfMinusOne` | middleware/printf/printf.c:735 | "%hhd" of -1 prints 255, where the standard asks for -1. |
| `PrintfStandard.ZeroOfMinusOneDigits` | middleware/printf/printf.c:639-643 | "%.*d" of 0 with a precision of -1 prints nothing, where the standard asks for 0. |
| `PrintfStandard.SevenOfMinusOneDigits` | middleware/printf/printf.c:639-643 | "%05.*d" of 7 with a precision of -1 prints blanks, where the standard asks for zeros. |
| `PrintfStandard.StringOfMinusOne` | middleware/printf/printf.c:639-643 | "%.*s" with a precision of -1 prints nothing, where the standard asks for the string. |
| `PrintfFormat.EmittedJoin` | middleware/printf/printf.c:133-138 | Putting out two texts one after the other at consecutive indices is putting out both. |
| `PrintfFormat.EmittedIsAPrefix` | middleware/printf/printf.c:133-138 | What lands in the buffer is the text cut off at its end; nothing else changes. |
| `PrintfFormat.TruncationIsAPrefix` | middleware/printf/printf.c:852-857 | With the final NUL: the first min(len, count-1) characters, NUL, and nothing at or past count. |
| `PrintfFormat.IntegersAreProper` | middleware/printf/printf.c:684-756 | What the integer conversions hand on is a value in range and flags the standard's rules are about. |
| `PrintfDriver.Snprintf` | middleware/printf/printf.c:883-890 | The returned length is that of the whole text, which PrintfArgs is about, and does not depend on count; the buffer holds its first min(len, count-1) characters and NUL, and is untouched behind. |
| `PrintfDriver.Atoi` | middleware/printf/printf.c:188-195 | Reads the digits, modulo 2 to the 32. |
| `PrintfSpec.NumberIsRead` | middleware/printf/printf.c:188-195 | The digits are read to the last, for their decimal value modulo 2 to the 32. |
| `PrintfSpec.WidthIsRead` | middleware/printf/printf.c:614-629 | A width is the value of its digits, or the magnitude of an argument whose sign then sets a flag. |
| `PrintfSpec.PrecisionIsRead` | middleware/printf/printf.c:631-644 | A precision is the value of the digits behind the dot, or an argument, and zero for a negative one. |
| `PrintfSpec.FlagsAreRead` | middleware/printf/printf.c:599-612 | Each flag is set exactly when its character is among the flag characters. |
| `PrintfSpec.LengthIsRead` | middleware/printf/printf.c:646-680 | hh, h, l, ll, t, j and z give an argument 8, 16, 32, 64, 32, 64 and 32 bits, no modifier 32, and change nothing else. |
| `PrintfSpec.SpecIsRead` | middleware/printf/printf.c:597-680 | Where a specification ends does not depend on the arguments. |
| `PrintfSpec.UnfinishedExactlyWhen` | middleware/printf/printf.c:597-680 | No conversion character is found if and only if the rest of the format is flags, a width, a precision and a length, any of them possibly empty. |
| `PrintfSpec.RenderedExactlyWhen` | middleware/printf/printf.c:577-857 | A format has a text, whatever the arguments, if and only if it does not end inside a specification. |
| `PrintfSpec.LonePercent` | middleware/printf/printf.c:577-857 | A lone percent sign at the end has none; doubled, it has. |
| `PrintfArgs.StarsAreTaken` | middleware/printf/printf.c:614-644 | A specification takes one argument for each of its stars, for the code as for the standard. |
| `PrintfArgs.RenderJoin` | middleware/printf/printf.c:577-857 | A format behind another prints behind it, with the arguments from the one on that is left when each conversion of the standard's list, and b, and each star before it has taken its own. |
| `PrintfArgs.StringThenDecimal` | middleware/printf/printf.c:577-857 | "%s%d" prints its first argument and then the decimal of its second. |
| `PrintfArgs.ConversionAsStandard` | middleware/printf/printf.c:597-849 | A conversion that meets its condition prints what the standard asks for. |
| `PrintfArgs.FormatAsStandard` | middleware/printf/printf.c:577-857 | A whole format all of whose conversions meet their conditions prints what the standard asks for, each conversion with its own argument. |
| `PrintfDriver.ParseFlags` | middleware/printf/printf.c:601-612 | The loop over the flags reads those of the model. |
| `PrintfDriver.ParseSpec` | middleware/printf/printf.c:597-680 | Flags, width, precision and length together. |
| `PrintfDriver.Output.Out` | middleware/printf/printf.c:133-145 | One character at its index if there is room. |
| `PrintfDriver.Output.OutPad` | middleware/printf/printf.c:199-223 | A run of one character at consecutive indices. |
| `PrintfDriver.Output.OutText` | middleware/printf/printf.c:808-811 | A text at consecutive indices. |
| `PrintfDriver.Output.OutRev` | middleware/printf/printf.c:199-223 | With the blanks before or behind. |
| `PrintfDriver.Output.PadBuffer` | middleware/printf/printf.c:234-239 | The zero-padding loops, up to the buffer's 32 characters. |
| `PrintfDriver.Output.Pad` | middleware/printf/printf.c:229-240 | Zeros for the precision and, with its flag, for the width. |
| `PrintfDriver.Output.Hash` | middleware/printf/printf.c:242-262 | The prefix of '#'. |
| `PrintfDriver.Output.PushSign` | middleware/printf/printf.c:264-274 | At most one sign character. |
| `PrintfDriver.Output.NtoaFormat` | middleware/printf/printf.c:227-277 | The field of the model at consecutive indices. |
| `PrintfDriver.Output.DigitsInto` | middleware/printf/printf.c:281-326 | The digit loop of the model, in the buffer. |
| `PrintfDriver.Output.NtoaLong` | middleware/printf/printf.c:281-326 | The field of an integer at consecutive indices, for both widths. |
| `PrintfDriver.Output.CharConversion` | middleware/printf/printf.c:776-794 | The field of %c. |
| `PrintfDriver.Output.StringConversion` | middleware/printf/printf.c:796-820 | The field of %s, cut to the precision and padded to the width. |
| `PrintfDriver.Output.Conversion` | middleware/printf/printf.c:683-849 | Every conversion puts out its field at consecutive indices. |
| `PrintfDriver.Output.VSnprintf` | middleware/printf/printf.c:577-857 | Any format prints its text, which PrintfArgs is about, at consecutive indices, then ends it, and returns its length. |

## Left out

- Registers, clocks, resets, interrupt controllers, power and sleep handling of all drivers: plumbing.
- Busy-wait loops: each is a parameter that says whether it times out.
- Statistics, baud rate, parity, stop bits and word length of the UART, and DRV_UART_Send_Block: single branches.
- Callbacks that call back into the UART or the I2C driver from the interrupt.
- UartDriver.Handle.ReceiveNonblock: needs a ring buffer of at least two bytes, without which there is no ring.
- UartBlock.Receive: models the copying only; the line state and the interrupt mask around it are those of the other receive call.
- I2cDriver.Peripheral.IrqHandler: an interrupt has one cause; with a Nack and a Done together the error state ends before the STOP does.
- I2cMaster.ForceKeepsInv: the reset and flush of a forced stop are taken to take back a Done interrupt that is already latched; otherwise that one would end the abort, and the STOP's own be reported again.
- I2cMaster.EveryRunObeysTheBus: a transfer starts only when the one before is over, as the busy flag at ALT125x/CMSIS_Driver/I2C_CMSIS_ADL.c:341 sees to.
- I2C counts above 31 bits, and the speed, power and bus-clear settings beyond the commands they write.
- Timex.Conservation: holds up to the last second before the 64-bit tick counter wraps.
- Gptimer.Search: for clocks between 65536 Hz and 2 to the 30 Hz, which the two core clocks are.
- Otp.WriteOnce: for lock bits that burn; Otp.SecondWriteExactlyWhen says what holds for the others.
- Otp.ReadBackBits: excludes a run in which a field that is still empty, behind a lock bit that does not burn, is written again.
- FlashDriver.Controller.Write: lengths for which the address check wraps are excluded, as the memory behind the partition is not modelled; nor are erasing, reading and write protection.
- GpioDriver.Driver.Initialize: pin values and pull modes are left out, and the reset is taken to leave the multiplexer alone, which is another block.
- SfpDb.Database.PrintDbBuffer: with next_entry_delta at the end of the buffer the code reads one byte past it, so that case is excluded.
- SfpDb.PrintShowsTheLog: one direction of SfpDb.PrintShowsTheBufferExactlyWhen.
- SfpStart.PrintShowsTheLogExactlyWhen: for buffers of a whole number of regular entries, as never-written memory is read as such.
- SfpDb.Database.LogEntry: an entry that would end one byte before the end of the buffer is excluded, as the code then reads behind it; so too in ClearRoom, GetNextEntry, LogNumbers and LogString.
- SfpDb.Database.LogString: a text that passes the check though its entry does not fit is excluded, as the code then writes behind the buffer; the text is a parameter: building it from module name, severity filter and tick count is left out, as are locks, hashes, dictionary and formatting.
- Complex string entries: they are tiles of the log, but nothing in the modelled code writes them.
- GPIO interrupts, pull, value and power functions, and the CMSIS layers above the drivers.
- PrintfDriver.Output.VSnprintf: for formats that do not end inside a specification, and without the 32-bit wrap of the index.
- The text of floating-point conversions, and printf_, sprintf_ and fctprintf, which differ in the output function only.
- PrintfStandard.StringAgreesExactlyWhen: for strings shorter than 2 to the 32 characters, the address space.
- PrintfIso.AgreesExactlyWhen: without '#', which is PrintfAlt.AltAgreesExactlyWhen; the binary conversion with '#' is left out there, as the standard has neither.
- PrintfStandard.ConversionAgreesExactlyWhen: a field with 0x in front is not read back, as the reader takes no prefix.
- PrintfStandard.PointerIsEightDigits: without flags and precision; the standard leaves %p to the implementation.
- The other functions of deltaupgmcu.py, which talk to a serial port.
