# A verified model of the ALOE runtime cores

ALOE is a software-radio runtime: objects run once per time slot on the cores of a
machine, exchange time-stamped packets and shared variables, and are driven by a
controller. This project models the algorithms inside it in Dafny and proves what they
are relied on for.

| file | models |
|---|---|
| `Words.dfy`, `Gf2.dfy`, `CrcWords.dfy`, `Crc.dfy` | the CRC engine: 64-bit words, polynomials over GF(2), the link between the two, and the operations |
| `Filter.dfy` | the streaming interpolating and decimating filter |
| `MemPool.dfy`, `VarStore.dfy` | the first-fit slot allocator and the shared variables on top of it |
| `Scheduler.dfy`, `SlotClock.dfy` | the semaphore ring of a core and the slot clock |
| `Handshake.dfy` | the status change between object and controller, and `Status()` |
| `PacketQueue.dfy` | time-stamped packet interfaces over message queues |
| `CircBuffer.dfy` | the ring buffer |
| `SetList.dfy`, `StrData.dfy`, `StrPacket.dfy`, `CfgParser.dfy` | containers, the two string serialisers and the configuration parser |
| `Arithmetic.dfy`, `Wrappers.dfy` | facts about multiplication and division, and optional results, that several files share |

Objects that the C code updates in place are classes; their methods are proved against
functions on values, and the results are lemmas about those functions. Interleavings are
runs of a step function over arbitrary sequences of actions. A polynomial is a sequence of
bits, most significant first; a register is such a sequence of `order` bits.

## Results

- **CRC.** The table-driven form, which masks only at the end, equals long division of the
  message by the generator. Every error confined to `order` consecutive bits is detected,
  and every odd error with the LTE generators. `crc_attach` returns the register of the
  exact bit message because the backward steps undo the padding, and with default
  parameters the bits it appends are the only ones that make the message a multiple of
  the generator.
- **Filter.** However the input is cut into calls, the samples written are those of
  zero-stuffing, convolving and keeping every D-th value. The filter is linear, with
  its taps as impulse response.
- **Allocator and variables.** First fit exactly; flags, blocks and descriptors stay
  consistent over all runs; descriptors never run out first; the variables form a map
  from id to last written value.
- **Scheduler.** Tokens are conserved in every interleaving; a tick from the blocked state
  runs every object once, in order, one at a time, and ends in the blocked state.
- **Handshake.** In every interleaving a status is shown neither early nor after it has
  been superseded, and requests do not overtake each other. One step runs an object once,
  whatever status it held.
- **Packets.** A constant delay keeps first-in first-out order, and it is respected by
  every delivery exactly when no reader is at stamp 0.
- **Round trips.** The configuration parser, the string serialiser and the packet form of
  a list each undo their printer, with the reversal that prepending causes.

## Where the code falls short of its documentation or purpose

Each point follows the code and has a statement in the model.

- The interpolating filter returns `length * I / D`, which is not always the number of
  samples it wrote (`ReturnedCountExact`, `ReturnedCountTooLow`).
- With a nonzero final mask `crc_attach` differs from the plain register for unaligned
  messages, because the mask is applied before and after the backward steps
  (`AttachedExact`).
- With a polynomial word that lacks its x^order term, as every word of order 32 does,
  `crc_attach` is right for an unaligned message only when the final mask happens to make
  up for the bits that leave the register over the padding; with a zero mask, when none
  does (`AttachedTruncated`). Some message of every unaligned length fails
  (`TruncatedFails`).
- `str_set` keeps the old length when it equals that of the new text plus one, and such a
  string becomes two in a packet. The packet round trip holds exactly for lists without
  one, or with only empty strings behind it (`StrO.Set`, `StaleLength`, `InexactSplits`,
  `ParseWire`, `ArrivingIff`). `str_set` also reports the empty string as stored and
  keeps the old text.
- `hwapi_proc_status_new` returns the requested status and not 1; a request for the status
  already held is never acknowledged and locks out all later ones (`StuckForever`,
  `CompletableIff`); if that status is STEP, every call of `Status` runs
  the object (`Process.Status`).
- `last_offset` is never reset: after one negative timer correction every later
  synchronisation counts an extra slot (`OffsetIff`, `SyncThenTicks`).
- A write that fills the ring buffer completely makes it look empty (`Ring.Write`,
  `QueueIff`).
- A reader whose time stamp is still 0 takes packets whose time has not come; the delay
  is respected exactly when no reader does (`StampZeroIgnoresDelay`, `DelayKeepsFifo`).
- Without any delay the packet's own time stamp is an unassigned local (parameter `unset`
  of `Interface.Snd`).
- `hwapi_var_create2` keeps the block it took when the table turns out to be full
  (`VarTable.Create2`, `AllOwnedIff`). When the pool has no room it hands out an id
  without a block, because it compares the failed allocation with 0 and not with -1
  (`VarTable.Create2`, `HomelessUnsound`).
- `hwapi_var_delete` and `hwapi_var_write` act on ids that are not in use, through the
  offset that the entry still remembers. They can release the block of another variable
  or overwrite its value; when they do no harm is stated exactly (`UnusedDeleteIff`,
  `UnusedWriteIff`), and so is an input that does (`StaleDelete`, `StaleWrite`).
- `mem_new` lets the data area start inside the flags of the last slots
  (`DataCoversFlags`).
- `Set_topkt` and `str_topkt` return 1 or 0 and not the number of bytes, and a refused
  packet has already been written in part (`ToPkt`).
- Configuration lines of 168 characters or more are read as several lines
  (`LongLineSplits`, `KeyReadBackIff`).
- Strings survive the serialiser only without `||` inside and `|` at the end
  (`SplitJoinIff`).

## Model

| member | source | states |
|---|---|---|
| `Crc.LteGenerators` | modules/CRC/src/CRC_functions.h:22-25 | the four LTE words have their x^order term and constant term and an even number of terms, so every result below applies to them |
| `Gf2.DivisionIdentity` | modules/CRC/src/CRC_functions.c:37-67 | long division: message times x^order is quotient times generator plus the register, for every bit message |
| `Gf2.RemainderUnique` | modules/CRC/src/CRC_functions.c:54-67 | any quotient and register with that identity are the ones division computes |
| `Gf2.RemainderZeroIffMultiple` | modules/CRC/src/CRC_functions.c:219-226 | the register of a stream is zero if and only if the generator divides the stream |
| `Gf2.CompletesIffRemainder` | modules/CRC/src/CRC_functions.c:202-217 | appended order bits complete a message to a multiple of the generator if and only if they are its remainder |
| `Gf2.FeedBlock` | modules/CRC/src/CRC_functions.c:63-65 | absorbing a block of bits equals order-many steps of the register with the block exclusive-ored to its top: the algebra behind the table |
| `Gf2.BackStepN` | modules/CRC/src/CRC_functions.c:69-78 | stepping the register backwards undoes any number of forward steps by zero bits |
| `Gf2.BurstChangesRegister` | modules/CRC/src/CRC_functions.c:54-67 | two streams that differ only inside order consecutive bits, and do differ, leave different registers |
| `Gf2.OddChangesRegister` | modules/CRC/src/CRC_functions.c:54-67 | two streams that differ in an odd number of bits leave different registers when the generator has an even number of terms |
| `CrcWords.WordStep` | modules/CRC/src/CRC_functions.c:45-48 | shift and conditional exclusive or of the 64-bit word is one step of the register, whatever stands above bit order |
| `CrcWords.WordByte` | modules/CRC/src/CRC_functions.c:64 | one table look-up on the unmasked word absorbs eight message bits, for any generator |
| `CrcWords.BitsOfBytes` | modules/CRC/src/CRC_functions.c:212-214 | the bytes of a word, most significant first, hold its bits |
| `CrcWords.WordBack` | modules/CRC/src/CRC_functions.c:74-75 | one turn of the reversing loop is one backward step |
| `Crc.CrcEngine.CrcInit` | modules/CRC/src/CRC_functions.c:99-131 | success exactly for whole-byte orders; masks, defaults and, on success, a correct table |
| `Crc.CrcEngine.CrcSetInit` | modules/CRC/src/CRC_functions.c:80-88 | stores the value and reports whether it fits the mask |
| `Crc.CrcEngine.CrcSetXor` | modules/CRC/src/CRC_functions.c:89-97 | stores the value and reports whether it fits the mask |
| `Crc.CrcEngine.GenCrcTable` | modules/CRC/src/CRC_functions.c:37-51 | entry i is what eight steps make of byte i at the top of the register |
| `Crc.CrcEngine.EightSteps` | modules/CRC/src/CRC_functions.c:43-49 | the inner loop computes one table entry |
| `Crc.CrcEngine.CrcTable` | modules/CRC/src/CRC_functions.c:54-67 | the byte-wise form equals the bit-wise register of the message, masked and exclusive-ored at the end only |
| `Crc.CrcEngine.ReverseCrcBit` | modules/CRC/src/CRC_functions.c:69-78 | nbits backward steps, then the final mask |
| `Crc.CrcEngine.StoreCrc` | modules/CRC/src/CRC_functions.c:212-214 | the register is stored most significant byte first and nothing else changes |
| `Crc.CrcEngine.AddCrc` | modules/CRC/src/CRC_functions.c:202-217 | keeps the message, appends its register; message and register together have a residue that depends on the final mask alone and are a multiple of the generator by default |
| `Crc.CrcEngine.CheckCrc` | modules/CRC/src/CRC_functions.c:219-226 | returns the masked register of the whole buffer; zero if and only if the register equals the final mask, by default if and only if the generator divides the buffer |
| `Crc.CrcEngine.CodewordAcceptedIff` | modules/CRC/src/CRC_functions.c:202-226 | what add_CRC builds is accepted by check_CRC if and only if the final mask is a fixed point of order steps; always without a mask |
| `Crc.CrcEngine.StartValue` | modules/CRC/src/CRC_functions.c:54-67 | the register is the remainder of the stream, plus the start value shifted once for every bit |
| `Crc.CrcEngine.BurstRejected` | modules/CRC/src/CRC_functions.c:202-226 | for every start value, mask and order, a word damaged inside order consecutive bits leaves another register, so it is rejected whenever the undamaged one is accepted |
| `Crc.CrcEngine.OddErrorRejected` | modules/CRC/src/CRC_functions.c:202-226 | with an even generator the same for every odd number of errors |
| `Crc.CrcEngine.PackFlags` | modules/CRC/src/CRC_functions.c:190-200 | eight characters, or the last few, become the high bits of a byte |
| `Crc.CrcEngine.PackMessage` | modules/CRC/src/CRC_functions.c:152-164 | the bytes checked are the bit message followed by zero padding |
| `Crc.CrcEngine.UnpackWord` | modules/CRC/src/CRC_functions.c:180-188 | the register is written as characters, most significant first |
| `Words.BitByDivision` | modules/CRC/src/CRC_functions.c:180-188 | bit i from the top of a word, by division |
| `Crc.CrcEngine.BitCrc` | modules/CRC/src/CRC_functions.c:151-170 | the appended value: register of the padded message, taken back over the padding with the terms the polynomial word writes out |
| `Crc.CrcEngine.CrcAttach` | modules/CRC/src/CRC_functions.c:140-178 | keeps the bit message and appends exactly the bits of the returned value; too long a message is refused untouched |
| `Gf2.TruncatedBack` | modules/CRC/src/CRC_functions.c:69-78 | backward steps with a word that lacks the x^order term give the register back but for exactly the bits that left it, missing in its top places |
| `Gf2.TruncatedBackIff` | modules/CRC/src/CRC_functions.c:69-78 | backward steps with a word that lacks the x^order term restore the register if and only if its top was clear, so that no bit has left it |
| `Crc.CrcEngine.UnpadRegister` | modules/CRC/src/CRC_functions.c:169-170 | with the x^order term the reversing loop removes precisely the effect of the padding |
| `Crc.CrcEngine.AttachedWhole` | modules/CRC/src/CRC_functions.c:140-178 | with the x^order term the value is the register of the exact bit message, up to the mask |
| `Crc.CrcEngine.AttachedTruncated` | modules/CRC/src/CRC_functions.c:169-170 | without it the value for an unaligned message is right if and only if the final mask, taken back over the padding, is the sequence of bits that leave the register there; with a zero mask, if and only if the top of the register is clear |
| `Crc.CrcEngine.TruncatedFails` | modules/CRC/src/CRC_functions.c:169-170 | without it some message of every unaligned length of at least order bits gets wrong bits, whatever the start value and the final mask |
| `Crc.CrcEngine.AttachedExact` | modules/CRC/src/CRC_functions.c:166-170 | for unaligned messages the result is the plain one if and only if the final mask is zero |
| `Crc.CrcEngine.AttachedIsRemainder` | modules/CRC/src/CRC_functions.c:140-178 | with default parameters the appended bits, and no others, make the extended message a multiple of the generator |
| `Filter.PhaseIsFiltered` | modules/CPLX_FILTER/src/CPLX_FILTER_functions.c:206-211 | the sum over one phase equals zero-stuffing followed by convolution with the whole phases of taps |
| `Filter.Causal` | modules/CPLX_FILTER/src/CPLX_FILTER_functions.c:198-205 | a value depends only on input up to its position |
| `Filter.OutputsGrow` | modules/CPLX_FILTER/src/CPLX_FILTER_functions.c:198-217 | more input never changes outputs already due |
| `Filter.DecimatedAt` | modules/CPLX_FILTER/src/CPLX_FILTER_functions.c:206-216 | output i is the filtered value at i times the decimation factor; one per multiple |
| `Filter.Sums` | modules/CPLX_FILTER/src/CPLX_FILTER_functions.c:209 | complex addition is associative and commutative with a zero and agrees with that of real numbers |
| `Filter.Products` | modules/CPLX_FILTER/src/CPLX_FILTER_functions.c:209 | complex multiplication is associative, commutative and distributive, agrees with that of real numbers, and i times i is -1 |
| `Filter.NormOfProduct` | modules/CPLX_FILTER/src/CPLX_FILTER_functions.c:209 | the squared norm of a product is the product of the squared norms |
| `Filter.StreamingIsWhole` | modules/CPLX_FILTER/src/CPLX_FILTER_functions.c:171-220 | however the input is cut into calls, the outputs join to those of the whole input |
| `Filter.OutputsLinear` | modules/CPLX_FILTER/src/CPLX_FILTER_functions.c:171-220 | the filter is linear: outputs for a sum of inputs, one scaled by a complex number, are the sum of the outputs, scaled likewise |
| `Filter.ImpulseResponse` | modules/CPLX_FILTER/src/CPLX_FILTER_functions.c:171-220 | a single one at input k yields every D-th tap from position k times I on, and zeros before and behind |
| `Filter.WrittenIsGrowth` | modules/CPLX_FILTER/src/CPLX_FILTER_functions.c:198-217 | how many samples one call writes, from the decimation phase at its start |
| `Filter.ReturnedCountExact` | modules/CPLX_FILTER/src/CPLX_FILTER_functions.c:219 | after any history a call returns the number of samples it wrote if and only if its positions are a multiple of the decimation factor or the phase leaves room for the rest |
| `Filter.ReturnedCountTooLow` | modules/CPLX_FILTER/src/CPLX_FILTER_functions.c:219 | the first call with one sample, decimating by three, writes one and reports none |
| `Filter.PolyphaseFilter.ShiftIn` | modules/CPLX_FILTER/src/CPLX_FILTER_functions.c:200-203 | the delay line after the shift holds the last inputs, newest first |
| `Filter.PolyphaseFilter.PhaseProduct` | modules/CPLX_FILTER/src/CPLX_FILTER_functions.c:207-210 | the inner product of one phase |
| `Filter.PolyphaseFilter.OnePosition` | modules/CPLX_FILTER/src/CPLX_FILTER_functions.c:199-216 | one position: a sample enters in phase 0, a value is written in decimation phase 0, both phases advance |
| `Filter.PolyphaseFilter.RunBlock` | modules/CPLX_FILTER/src/CPLX_FILTER_functions.c:198-217 | the loop over a block writes the outputs due at its positions |
| `Filter.PolyphaseFilter.StreamConvIntDec` | modules/CPLX_FILTER/src/CPLX_FILTER_functions.c:171-220 | one call writes exactly the outputs the new input makes due; at every call boundary the delay line holds the last inputs and the interpolation phase is 0 |
| `Filter.PolyphaseFilter.StreamConv` | modules/CPLX_FILTER/src/CPLX_FILTER_functions.c:136-161 | without rate change every input yields the convolution at its position |
| `MemPool.LayoutFits` | hw_api/lnx/src/mem.c:57-60 | header, descriptors, flags and data of n slots fit if and only if n is at most the number of slots, so the calculated size is the least one; what is laid out never exceeds the buffer |
| `MemPool.VariablePool` | hw_api/lnx/src/hwapi_backd_mem.c:303-308 | the runtime pool of shared variables has 12487 slots and some bytes to spare |
| `MemPool.DataCoversFlags` | hw_api/lnx/src/mem.c:104-115 | the data area always starts inside the flags, and which of them its first bytes are |
| `MemPool.NeedIsLeast` | hw_api/lnx/src/mem.c:187-189 | the number of slots taken is the least that covers the request |
| `MemPool.ScanIsFirstFit` | hw_api/lnx/src/mem.c:176-194 | the scanning loop finds the lowest sufficient run of free slots and fails only when there is none |
| `MemPool.ZeroSizeIsEmpty` | hw_api/lnx/src/mem.c:152-210 | a request of zero bytes may get an empty block whose offset the next block shares |
| `MemPool.DescriptorsSuffice` | hw_api/lnx/src/mem.c:166-174 | with every descriptor in use every slot is in use: descriptors never run out first |
| `MemPool.OwnersUnique` | hw_api/lnx/src/mem.c:226-266 | a slot lies in one live block only, and equal offsets mean the same block |
| `MemPool.FlagsFollowBlocks` | hw_api/lnx/src/mem.c:196-205 | the live blocks determine every flag |
| `MemPool.TakeKeeps` | hw_api/lnx/src/mem.c:196-205 | recording a block over free slots keeps flags and blocks consistent and blocks disjoint |
| `MemPool.ReleaseKeeps` | hw_api/lnx/src/mem.c:253-263 | clearing a block keeps flags and blocks consistent and removes that block only |
| `MemPool.Pool.New` | hw_api/lnx/src/mem.c:75-135 | null exactly when no slot fits; otherwise an empty, consistent pool |
| `MemPool.Pool.Alloc` | hw_api/lnx/src/mem.c:152-210 | -1 if and only if no run of enough free slots exists, and then nothing changes; otherwise exactly the lowest such run becomes a new live block |
| `MemPool.Pool.FindRun` | hw_api/lnx/src/mem.c:182-189 | the in-place loop follows the scan |
| `MemPool.Pool.Take` | hw_api/lnx/src/mem.c:196-205 | the live blocks grow by the new one |
| `MemPool.Pool.Free` | hw_api/lnx/src/mem.c:226-266 | releases exactly the block with that offset, its slots and no others; 0 and no change when there is none |
| `MemPool.Pool.AllocThenFree` | hw_api/lnx/src/mem.c:152-266 | releasing what was just taken restores every flag |
| `MemPool.Pool.LiveBlocksApart` | hw_api/lnx/src/mem.c:152-266 | live blocks are in range, disjoint and at the offset of their first slot |
| `VarStore.Apart` | hw_api/lnx/src/hwapi_linux_var.c:398-423 | the byte ranges of two variables never meet |
| `VarStore.WriteKeeps` | hw_api/lnx/src/hwapi_linux_var.c:398-423 | a write changes the value of one variable and of no other |
| `VarStore.CreateKeeps` | hw_api/lnx/src/hwapi_linux_var.c:173-186 | a new entry over a new block leaves all values as they were |
| `VarStore.DeleteKeeps` | hw_api/lnx/src/hwapi_linux_var.c:225-231 | deleting one variable leaves all other values as they were |
| `VarStore.StaleWriteIff` | hw_api/lnx/src/hwapi_linux_var.c:398-423 | bytes put anywhere keep all values, whatever they are, if and only if they meet none |
| `VarStore.CreatedSound` | hw_api/lnx/src/hwapi_linux_var.c:149-186 | a create keeps the whole store sound |
| `VarStore.WastedSound` | hw_api/lnx/src/hwapi_linux_var.c:158-168 | so does a create with the table full, which leaves one more block that belongs to nobody |
| `VarStore.HomelessUnsound` | hw_api/lnx/src/hwapi_linux_var.c:148-156 | an entry with the offset of a failed allocation points outside the table, whatever blocks are in use |
| `VarStore.DeletedSound` | hw_api/lnx/src/hwapi_linux_var.c:225-231 | deleting a variable releases its own block and keeps the store sound |
| `VarStore.UnusedDeleteIff` | hw_api/lnx/src/hwapi_linux_var.c:216-231 | deleting an id that is not in use keeps all blocks, and the store sound, if and only if no block of a variable stands at the offset its entry remembers |
| `VarStore.WrittenSound` | hw_api/lnx/src/hwapi_linux_var.c:410-421 | writing to a variable keeps the store sound |
| `VarStore.UnusedWriteIff` | hw_api/lnx/src/hwapi_linux_var.c:405-421 | writing through an entry that is not in use keeps the store sound, whatever is written, if and only if the bytes meet no value of a variable |
| `VarStore.ReadPlace` | hw_api/lnx/src/hwapi_linux_var.c:353-359 | a value stands where its entry points |
| `VarStore.StaleEntry` | hw_api/lnx/src/hwapi_linux_var.c:137-246 | in every pool of at least four slots, of any size, a sequence of creates and deletes after which an unused entry points at the block of a variable |
| `VarStore.StaleDelete` | hw_api/lnx/src/hwapi_linux_var.c:210-246 | deleting that entry again releases the block of the variable |
| `VarStore.StaleWrite` | hw_api/lnx/src/hwapi_linux_var.c:398-423 | writing to that entry changes what the variable holds |
| `VarStore.VarTable.AllOwnedIff` | hw_api/lnx/src/hwapi_linux_var.c:149-168 | over every history each block in use belongs to a variable if and only if no create has taken one with the table full |
| `VarStore.VarTable.FreeEntry` | hw_api/lnx/src/hwapi_linux_var.c:158-161 | the least unused id |
| `VarStore.VarTable.Create2` | hw_api/lnx/src/hwapi_linux_var.c:137-193 | takes the lowest block that fits; the lowest unused id gets it, or with the table full, exactly then, -1 is returned and the block stays taken; when no run of slots is free the id is handed out with offset -1, and the store stays sound exactly when a run was free or the table full |
| `VarStore.VarTable.Delete` | hw_api/lnx/src/hwapi_linux_var.c:210-246 | releases what stands at the offset of the entry, in use or not; for a variable exactly its block |
| `VarStore.VarTable.Write` | hw_api/lnx/src/hwapi_linux_var.c:398-423 | puts the value, cut to the declared size and no shorter, where the entry points, in use or not; for a variable the map from ids to values is updated |
| `VarStore.VarTable.Read` | hw_api/lnx/src/hwapi_linux_var.c:340-363 | hands out what stands where the entry points, cut to the buffer and no shorter; for an id that holds a value that value |
| `VarStore.VarTable.WriteThenRead` | hw_api/lnx/src/hwapi_linux_var.c:340-423 | reading back what was written gives the longest prefix that fits both the variable and the buffer |
| `Scheduler.ConservedAlways` | hw_api/lnx/src/hwapi_linux_base.c:465-472 | in every interleaving of ticks and relinquishes each semaphore plus the waits it granted equals one plus the posts it got |
| `Scheduler.WaitsBounded` | hw_api/lnx/src/hwapi_linux_base.c:465-472 | object k is at most ticks + 1 + 2k waits ahead, with equality when all are blocked |
| `Scheduler.StuckIffQuiescent` | hw_api/lnx/src/hwapi_linux_base.c:468-469 | only a tick is possible if and only if all objects are blocked |
| `Scheduler.StepUsesOne` | hw_api/lnx/src/hwapi_linux_base.c:468-469 | every object step uses up one unit of a potential that only ticks raise |
| `Scheduler.TickFreeRunsEnd` | hw_api/lnx/src/hwapi_linux_base.c:465-472 | between ticks a run is never longer than the potential, and is that long if and only if it has reached the blocked state |
| `Scheduler.SlotStep` | hw_api/lnx/src/hwapi_linux_base.c:468-469 | within a slot exactly one object step is possible at any point |
| `Scheduler.SlotRunsInOrder` | hw_api/lnx/src/hwapi_linux_base.c:465-472 | after a tick in the blocked state every interleaving runs objects 0, 1, 2, ... once each in order |
| `Scheduler.SlotCompletes` | hw_api/lnx/src/hwapi_backd_exec.c:77-83 | a slot that has run out has run every object once and is blocked again |
| `Scheduler.SlotIsPossible` | hw_api/lnx/src/hwapi_backd_exec.c:77-83 | from the blocked state a tick and all steps of its slot are possible, up to the end |
| `Scheduler.SlotIsExclusive` | hw_api/lnx/src/hwapi_linux_base.c:465-472 | at most one object of a core runs at any point of a slot |
| `Scheduler.Machine.constructor` | hw_api/lnx/src/hwapi_backd_mem.c:293-300 | every core starts with all semaphores at one and its objects running, which is where conservation begins |
| `Scheduler.Machine.PostObjects` | hw_api/lnx/src/hwapi_backd_exec.c:77-83 | every core gets its tick, once |
| `Scheduler.Machine.RelinquishPost` | hw_api/lnx/src/hwapi_linux_base.c:468 | the successor of the object is posted; other cores and objects are untouched |
| `Scheduler.Machine.RelinquishWake` | hw_api/lnx/src/hwapi_linux_base.c:469-472 | the wait takes one token of the own semaphore |
| `SlotClock.InSlotIff` | hw_api/lnx/src/hwapi_linux_time.c:186-208 | a time belongs to slot k if and only if it lies from the begin of k to before the begin of k + 1 |
| `SlotClock.SlotBeginRoundTrip` | hw_api/lnx/src/hwapi_linux_time.c:186-208 | the two conversions are inverse on slot begins |
| `SlotClock.GetTimeInterval` | hw_api/lnx/src/hwapi_linux_time.c:170-184 | the normalised difference of the two times |
| `SlotClock.Clock.TimeSync` | hw_api/lnx/src/hwapi_linux_time.c:126-129 | stores the request and leaves the clock alone |
| `SlotClock.Clock.SyncTslot` | hw_api/lnx/src/hwapi_backd_exec.c:169-214 | the counter advances or jumps as asked, and the slot time is always the normalised begin of the current slot |
| `SlotClock.Clock.Carry` | hw_api/lnx/src/hwapi_backd_exec.c:192-195 | carrying whole seconds keeps the instant and normalises it |
| `SlotClock.OffsetIff` | hw_api/lnx/src/hwapi_backd_exec.c:200-205 | over every history the flag that makes a synchronisation count an extra slot is set if and only if some tick has taken up a negative correction |
| `SlotClock.SyncThenTicks` | hw_api/lnx/src/hwapi_backd_exec.c:177-214 | the slot after any history, a synchronisation and any number of ticks: when it takes effect, if it does, and what is counted before and after |
| `SlotClock.TicksCount` | hw_api/lnx/src/hwapi_backd_exec.c:177-214 | without synchronisations ticks are counted from the start |
| `SlotClock.Clock.Replay` | hw_api/lnx/src/hwapi_backd_exec.c:169-214 | any history of synchronisations and ticks on the real clock follows the specification |
| `SlotClock.Clock.SyncedTicks` | hw_api/lnx/src/hwapi_backd_exec.c:177-214 | a synchronisation with a correction takes effect at the second tick, one slot further if any correction ever taken up was negative |
| `Handshake.Lifecycle` | hw_api/lnx/src/hwapi_linux_proc.c:353-450 | in every interleaving a request stands where the log of gets and acks says: shown, then committed by a second get, then settled by a later ack |
| `Handshake.RequestTakesEffect` | hw_api/lnx/src/hwapi_linux_proc.c:353-420 | from an accepted request for stamp t on, in every interleaving, a get shows the old status in every slot before t and the new one from slot t on |
| `Handshake.ShownExactly` | hw_api/lnx/src/hwapi_linux_proc.c:353-374 | a get shows the new status if and only if its time has come or an earlier get has shown it: never early, never back |
| `Handshake.NextRequestWaits` | hw_api/lnx/src/hwapi_linux_proc.c:402-415 | a second request is accepted only after the first was shown twice and acknowledged after that |
| `Handshake.DueGetsShow` | hw_api/lnx/src/hwapi_linux_proc.c:360-368 | once due, every get shows the new status |
| `Handshake.DueRequestCompletes` | hw_api/lnx/src/hwapi_linux_proc.c:353-450 | two gets and a later ack complete a due request, whatever else happens in between |
| `Handshake.StuckForever` | hw_api/lnx/src/hwapi_linux_proc.c:404-412 | a request for the status held is never acknowledged and locks out all others, and every get goes on showing that status |
| `Handshake.CompletableIff` | hw_api/lnx/src/hwapi_linux_proc.c:379-450 | a request can be completed if and only if it asks for another status |
| `Handshake.Process.constructor` | hw_api/lnx/src/hwapi_linux_proc.c:193-197 | a new object has status 1 requested at once |
| `Handshake.Process.StatusGet` | hw_api/lnx/src/hwapi_linux_proc.c:353-374 | the fields follow the protocol, case by case, and the returned status is the one shown |
| `Handshake.Process.StatusNew` | hw_api/lnx/src/hwapi_linux_proc.c:379-420 | accepted exactly when no change is under way or forced; then status and time stamp are stored, the current slot for stamp 0, and else nothing changes; returns the requested status or 0 |
| `Handshake.Process.StatusAck` | hw_api/lnx/src/hwapi_linux_proc.c:425-450 | 1 exactly when the change is committed; then it is settled and else nothing changes |
| `Handshake.Process.FinishStep` | sw_api/src/phal_services.c:309-315 | whatever status was held before the step, its branch leaves the pause shown, whatever the clock and acks do in between; a step asked for again while it is held stays |
| `Handshake.WorkMeans` | sw_api/src/phal_services.c:301-317 | which statuses are answered, and with what |
| `Handshake.OfferedIff` | sw_api/src/phal_services.c:293-320 | the statuses that Status may answer are those that a get shows at some time between its call and its return |
| `Handshake.HoldingIff` | hw_api/lnx/src/hwapi_linux_proc.c:353-374 | a status is held, with nothing else asked for, if and only if a get at any time shows it and no request waits or is stuck |
| `Handshake.IdleIff` | sw_api/src/phal_services.c:293-320 | an object is idle, so that Status waits, if and only if no get at any time, whatever acks come, shows a status that gives work |
| `Handshake.Process.Status` | sw_api/src/phal_services.c:293-320 | RUN and STEP are answered with RUN, STOP and ABNSTOP with STOP, INIT with INIT unless it has been done, as soon as held or due, and no answer comes from anything else; a step requested of an object in any status makes it return RUN once, raises the object time stamp by one and leaves the object paused; a step asked for again while it is held makes every call run it; an object with nothing to do waits |
| `PacketQueue.PickIsLowestFirst` | hw_api/lnx/src/hwapi_linux_itf.c:748-753 | delivery up to a stamp takes the first packet of the lowest destination not above it, and nothing when all lie above |
| `PacketQueue.PickOfType` | hw_api/lnx/src/hwapi_linux_itf.c:748-753 | a request for one type takes the first message of that type |
| `PacketQueue.FrontFirstIff` | hw_api/lnx/src/hwapi_linux_itf.c:748-753 | every reader is served from the front of the queue if and only if destination stamps never decrease along it |
| `PacketQueue.StampZeroIgnoresDelay` | hw_api/lnx/src/hwapi_linux_itf.c:735-753 | a reader at stamp 0 is given the first packet whatever its destination |
| `PacketQueue.DelayKeepsFifo` | hw_api/lnx/src/hwapi_linux_itf.c:576-600 | with a constant delay, for readers at any stamps, accepted packets are the received ones followed by the queued ones, and none is received before the delay has passed if and only if no packet is taken at stamp 0 |
| `PacketQueue.ReceivedAreSends` | hw_api/lnx/src/hwapi_linux_itf.c:576-600 | the k-th packet received is the k-th sent into room, with the stamp of its send plus the delay |
| `PacketQueue.ChainLatency` | hw_api/lnx/src/hwapi_linux_itf.c:576-600 | a packet forwarded over m links of delay d, and taken on none of them at stamp 0, takes at least m * d slots from its first send, whatever else happens on each link |
| `PacketQueue.Interface.SetDelay` | hw_api/lnx/src/hwapi_linux_itf.c:291-305 | stores the delay of the interface |
| `PacketQueue.Interface.Snd` | hw_api/lnx/src/hwapi_linux_itf.c:570-645 | error, full and success returns; on success the packet joins the queue, addressed to the stamp of the sender plus the delay of the interface or else the default one, plus the external delay, to type 1 without any, or to a forced stamp; a sorted queue stays sorted when the stamp does not go back; this is the send step of the histories under either delay |
| `PacketQueue.Interface.Rcv` | hw_api/lnx/src/hwapi_linux_itf.c:735-798 | takes the packet that the delivery rule picks, cut to the buffer; from a sorted queue always the front; for an object this is the receive step of the histories |
| `PacketQueue.Interface.Replay` | hw_api/lnx/src/hwapi_linux_itf.c:570-645 | any history of sends and receives on the link itself, under its own or the default delay, is the one specified: first in, first out, and in time unless somebody reads at stamp 0 |
| `CircBuffer.SliceGrows` | modules/CIRC_BUFFER/src/CIRC_BUFFER_functions.c:218-224 | writing behind the contents appends to them, wrapped or not |
| `CircBuffer.SliceShrinks` | modules/CIRC_BUFFER/src/CIRC_BUFFER_functions.c:263-271 | advancing the read index removes from the front |
| `CircBuffer.WrapIsModulo` | modules/CIRC_BUFFER/src/CIRC_BUFFER_functions.c:218-224 | indices run upwards, modulo the size |
| `CircBuffer.QueueConserves` | modules/CIRC_BUFFER/src/CIRC_BUFFER_functions.c:207-291 | over every history what was accepted is what was read followed by what is left |
| `CircBuffer.NextStep` | modules/CIRC_BUFFER/src/CIRC_BUFFER_functions.c:207-291 | after any history what fits is accepted, what is there can be taken from the front, and else nothing happens |
| `CircBuffer.QueueIff` | modules/CIRC_BUFFER/src/CIRC_BUFFER_functions.c:207-291 | the buffer agrees with the queue all along a history if and only if the queue is never full |
| `CircBuffer.Ring.Write` | modules/CIRC_BUFFER/src/CIRC_BUFFER_functions.c:207-241 | refused exactly when there is no room; otherwise appends, unless it leaves no room at all, which makes the buffer look empty |
| `CircBuffer.Ring.PutSamples` | modules/CIRC_BUFFER/src/CIRC_BUFFER_functions.c:218-224 | the samples stand at consecutive wrapped places and nothing else changes |
| `CircBuffer.Ring.Read` | modules/CIRC_BUFFER/src/CIRC_BUFFER_functions.c:251-291 | refused exactly when there are too few samples; otherwise hands out and removes the front |
| `CircBuffer.Ring.GetSamples` | modules/CIRC_BUFFER/src/CIRC_BUFFER_functions.c:263-271 | copies the contents from the front |
| `CircBuffer.Ring.UpdateLevels` | modules/CIRC_BUFFER/src/CIRC_BUFFER_functions.c:210-216 | the stored levels are those of the contents |
| `CircBuffer.Ring.Replay` | modules/CIRC_BUFFER/src/CIRC_BUFFER_functions.c:180-291 | any history of writes and reads from empty gives the contents and the output of its specification, which is the queue when it is never full |
| `SetList.ReverseTwice` | utils/src/set.c:218-240 | prepending a list element by element twice restores its order |
| `SetList.SetObj.Put` | utils/src/set.c:218-240 | the new member stands in front |
| `SetList.SetObj.Get` | utils/src/set.c:130-147 | member i from the front, nothing behind the end |
| `SetList.SetObj.Remove` | utils/src/set.c:250-287 | takes out the frontmost occurrence, reports whether there was one, counts a change either way |
| `SetList.SetObj.Clear` | utils/src/set.c:297-312 | no members are left |
| `SetList.SetObj.Dup` | utils/src/set.c:343-380 | a copy of every member in reversed order |
| `StrData.FirstPieceIff` | utils/src/strdata.c:146-160 | a string is read back as the first piece if and only if it contains no separator and does not end in a bar |
| `StrData.SplitJoinIff` | utils/src/strdata.c:83-163 | splitting undoes joining if and only if every string is of that kind |
| `StrData.SplitParts` | utils/src/strdata.c:146-164 | any buffer is read as clean strings, each with a separator behind it, up to a tail without any, which is dropped |
| `StrData.SplitUnique` | utils/src/strdata.c:146-164 | there is no other way to read it so |
| `StrData.HostOfNetwork` | utils/src/strdata.c:108-134 | the size survives network order |
| `StrData.NetworkOrder` | utils/src/strdata.c:107-108 | the most significant byte comes first: numbers compare as their bytes |
| `StrData.Serialiser.Push` | utils/src/strdata.c:60-70 | the string goes to the front |
| `StrData.Serialiser.Pop` | utils/src/strdata.c:72-81 | the next string from the front; the position advances even past the end |
| `StrData.Serialiser.Write` | utils/src/strdata.c:83-116 | size and joined strings, then the serialiser is empty |
| `StrData.Serialiser.CutUp` | utils/src/strdata.c:146-160 | one string per separator found, each put in front of those before it |
| `StrData.Serialiser.Read` | utils/src/strdata.c:118-163 | replaces the contents by the pieces of one message and returns their number, -1 for a negative size |
| `StrData.Serialiser.SendTo` | utils/src/strdata.c:83-163 | what arrives is the reversed list if and only if every string is clean |
| `StrData.Serialiser.Exchange` | utils/src/strdata.c:60-163 | strings pushed, written, read and popped come out in push order if and only if every one is clean |
| `StrPacket.StrO.Set` | utils/src/str.c:145-168 | which texts are stored; the stored length is right if and only if the old length was not that of the new text plus one |
| `StrPacket.InexactSplits` | utils/src/str.c:159-161 | a list of two whose first length is one too large: the reader gets the first string and an empty one, and never the second |
| `StrPacket.StaleLength` | utils/src/str.c:145-168 | two calls of str_set that leave a length one too large |
| `StrPacket.WireIsEncode` | utils/src/str.c:286-297 | behind a string whose length is too large an empty one stands on the wire |
| `StrPacket.ParseWire` | utils/src/set.c:391-458 | for any list the reader gets the first strings on the wire, and consumes the bytes written if and only if every length is right |
| `StrPacket.ArrivingIff` | utils/src/set.c:391-458 | the reader gets the texts of the list if and only if only empty ones stand behind a string whose length is too large |
| `StrPacket.StrO.Get` | utils/src/str.c:181-199 | at most max_len - 1 bytes and a zero byte; -1 and no change for the empty string |
| `StrPacket.SpliceParts` | utils/src/str.c:195-196 | a copy into a buffer stands at its place, with all around it as before |
| `StrPacket.StrO.ToPkt` | utils/src/str.c:273-298 | written whole with its zero byte, or not at all when it does not fit |
| `StrPacket.StrO.NewFromPkt` | utils/src/str.c:300-314 | the first string of the packet, none from an empty one; exactly its bytes are consumed |
| `StrPacket.SendEach` | utils/src/set.c:416-420 | writes whole strings up to the first without room |
| `StrPacket.ToPkt` | utils/src/set.c:391-423 | succeeds if and only if there are at most 127 strings and count byte and strings fit; exact bytes written in every case |
| `StrPacket.TakeEach` | utils/src/set.c:448-456 | the reading loop prepends the strings found and fails when the packet ends first |
| `StrPacket.NewFromPkt` | utils/src/set.c:425-458 | a new list of the strings in the packet, reversed; none for an empty or cut packet; an empty list for a count byte above 127; exact number of bytes consumed |
| `StrPacket.ParseEncode` | utils/src/set.c:391-458 | reading what was encoded gives the strings and stops right behind them, whatever follows |
| `StrPacket.ParseCut` | utils/src/set.c:448-455 | a packet that ends before the last string is refused, having been read to its end |
| `StrPacket.PacketParses` | utils/src/set.c:391-458 | a packet in the middle of a buffer reads back as its strings |
| `StrPacket.RelayedAs` | utils/src/set.c:391-458 | what becomes of a list: bytes consumed, texts and order, each with its exact condition |
| `StrPacket.Relay` | utils/src/set.c:391-458 | any list of at most 127 strings goes through a packet on the real buffer with that outcome |
| `StrPacket.TwoTrips` | utils/src/set.c:391-458 | two trips restore the texts of a list if and only if only empty ones stand behind a string whose length is too large |
| `CfgParser.Section` | utils/src/cfg_parser.c:240-317 | a section always takes at least one character, so parsing ends |
| `CfgParser.Body` | utils/src/cfg_parser.c:271-314 | every turn of the parsing loop takes at least one character |
| `CfgParser.KeyOf` | utils/src/cfg_parser.c:292-312 | name and value rejoin to the line, the name ending at the first equals sign |
| `CfgParser.SectionOfPrint` | utils/src/cfg_parser.c:240-317 | parsing a printed sub-section, with any nesting and any text behind it, gives it back reversed |
| `CfgParser.BodyOfPrint` | utils/src/cfg_parser.c:271-314 | parsing printed lines puts their keys and sub-sections in front of those already there |
| `CfgParser.ParsePrint` | utils/src/cfg_parser.c:324-352 | parsing any printed document gives its sections back, with sections, keys and sub-sections reversed; a key outside of any section begins one that takes all that follows |
| `CfgParser.SectionsAlone` | utils/src/cfg_parser.c:324-352 | for a document without such keys these are its sections and no others |
| `CfgParser.ParseDefault` | utils/src/cfg_parser.c:261-264 | a text that begins with a key is one section with the default title, behind any sections read before |
| `CfgParser.LongLine` | utils/src/cfg_parser.c:221-238 | a line too long for the line buffer gives up its first 168 characters, of which the last is lost |
| `CfgParser.LongLineSplits` | utils/src/cfg_parser.c:221-238 | a line too long for the line buffer is read as at least two keys, if at all |
| `CfgParser.KeyReadBackIff` | utils/src/cfg_parser.c:291-312 | a key on one line is read back if and only if both fields fit a string object and the line fits the line buffer |
| `CfgParser.Parser.CopyLine` | utils/src/cfg_parser.c:221-238 | the line buffer holds the line, cut if need be, and the return value is what the line takes from the text |
| `CfgParser.Parser.ParseSection` | utils/src/cfg_parser.c:240-317 | the recursive in-place parser reads what the grammar says and leaves the index right behind it |
| `CfgParser.Parser.ParseLine` | utils/src/cfg_parser.c:272-313 | one turn of its loop |
| `CfgParser.Parser.New` | utils/src/cfg_parser.c:324-352 | reads all sections to the end of the text |

## Left out

- Crc.CrcEngine.CrcAttach: messages of 1 to 7 bits, for which the C code reads a pointer it has not set, and unaligned messages with a polynomial word that has terms above x^order.
- Crc.CrcEngine.CheckCrc: the sign of the returned `int` for order 32.
- Crc.CrcEngine.CrcInit: orders above 32, which the C code's own messages exclude.
- Filter.PolyphaseFilter.StreamConvIntDec: rounding; arithmetic is exact over pairs of reals. Input, output and delay line are separate arrays, and taps and rates stay the same between calls.
- MemPool.Pool.Alloc: requests of zero bytes (`ZeroSizeIsEmpty` shows why), and pools of 32768 slots or more, which the `short` fields of a descriptor cannot number.
- MemPool.Pool.New: buffers smaller than the header. Flags and data are separate arrays here, so what the overlap stated by `DataCoversFlags` does to the flags when data are written is not modelled.
- VarStore.VarTable.Create2: requests of zero bytes, what later calls do after an id has been handed out without a block, and truncation of names.
- VarStore.VarTable.Delete: the id one past the last of a table that has been full, which the range test lets through; `Write` and `Read` likewise. What later calls do after a delete or write that `UnusedDeleteIff` and `UnusedWriteIff` call harmful.
- VarStore.VarTable.Read: ids that hold no value when their entry points past the end of the table.
- Scheduler.Machine.RelinquishWake: time measurements, forced relinquishes and objects that die; the objects of a core are fixed.
- SlotClock.Clock.SyncTslot: overflow of the slot counter, the timer itself, daemons and periodic tasks.
- Handshake.Process.StatusNew: the search for the object by its id, with -1 for unknown ones, and objects that are terminating.
- Handshake.Process.StatusAck: the search for the object by its id, with -1 for unknown ones.
- Handshake.Process.Status: an object that holds STEP with a further request still ahead of it, which its own calls never leave behind; endless waiting; the time and the acks between its calls are a finite list, and it gives back nothing when that ends first. Further requests arriving during a step are covered by the interleavings of `Lifecycle`.
- PacketQueue.Interface.SetDelay: the search for the interface by its id.
- PacketQueue.Interface.Snd: invalid descriptors, error codes of the queue other than full, and callbacks.
- PacketQueue.Interface.Rcv: waiting for a packet, invalid descriptors, and messages shorter than their head.
- PacketQueue.DelayKeepsFifo: senders whose stamp goes back, forced destinations and links whose delay changes; `FrontFirstIff` says when such a queue is still served in order.
- SetList.SetObj.Put: a failed allocation; hashed sets and search with a callback are not modelled, and members are a sequence, not linked nodes.
- StrData.Serialiser.Push: conversion of values to strings.
- StrData.Serialiser.Pop: conversion of strings to values.
- StrData.Serialiser.Read: short reads of the file descriptor; the input is one byte sequence.
- StrPacket.NewFromPkt: packets with a string that is not terminated inside them or is longer than 127 bytes, which the C code reads beyond the packet or releases and then uses; the same holds for `StrO.NewFromPkt` and `TakeEach`.
- CfgParser.Parser.ParseSection: texts the C code gives no meaning to (a line that is neither brace nor key, fields of 128 characters or more, no newline at the end); the grammar calls the first two undefined. Sections and keys are values, and the sets that hold them are the ones of `SetList`.
- Conversion of configuration values to numbers (`key_value` and below): easy members only.
- `str_cat`, `str_clear`, `str_cpy`, comparison and the other small string helpers.
- System calls, processes, signals, shared memory, sockets, daemons and their headers, drivers, consoles and the floating-point signal processing modules.
