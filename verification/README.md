# I2C slave register emulator: a Dafny model

This project models the core of an STM32 I2C slave that exposes 32 registers, each 32 bits wide, to a bus master. The core is `i2c_slave.c` with its header `i2c_slave.h`. It has three parts:

- **Register table** (`register_table.dfy`). It holds `MAX_REGS` = 32 values, a 32-bit word of read-only flags and one optional callback per register. It provides the two setup entry points, the bounds-checked read path (`register_read`, which answers `0xFFFFFFFF` outside the table) and the write path (`register_update`). The write path checks bounds, skips the store for a read-only register and runs the callback whether or not the store happened.
- **Byte layout** (`little_endian.dfy`). A register travels as `REG_SIZE` = 4 bytes, least-significant byte first. `FromLE` folds up to four bytes into a `bv32`, with missing high bytes read as zero. `ToLE` is its inverse and is used on the transmit path.
- **Transaction state machine** (`transaction.dfy`). The globals `i2c_state`, `registerAddress`, `registerByteCount` and `registerValue`, together with the table, form one immutable `Device` record. Each driver callback is a pure function from a device to a `Reaction`: the next device plus the driver call it makes, if any (an `Option<Request>`). The callbacks are address match, receive complete, error and listen complete. `Handle` dispatches one `Event` and `Run` handles a sequence of events.

A sequential receive tells the driver which buffer the next byte goes into. `Device.pending` remembers that buffer: either `registerAddress` or byte position `k` of `registerValue`. The event `RxComplete(b)` first stores `b` there (`Deposit`) and then runs `HAL_I2C_SlaveRxCpltCallback`. Running a callback is recorded as an `Invocation(register, handler)` appended to `Device.log`. `transaction_properties.dfy` proves what whole bus transactions do to the table and the log.

Two behaviours are modelled as written, with a lemma for each:

- The receive-complete `else` branch also runs in `I2C_IDLE`. A stray byte after a completed write counts on and applies `register_update` again (`IdleByteReappliesUpdate`, reached from a complete write by `StrayByteAfterWrite`).
- The read direction of an address match overwrites `registerValue`. Suppose a write has 1 to 3 data bytes in flight, then a read interrupts it, and an acknowledge failure follows. The partial bytes are lost, the register keeps its current value, and its callback still runs (`ReadDuringWriteDropsPartialBytes`).

`register_update` returns `void`, so it does not report whether the update was applied. The read branch of `HAL_I2C_AddrCallback` assigns `registerValue` before transmitting it.

## Model

| member | source | states |
|---|---|---|
| LittleEndian.FromLE | i2c_example/Core/Src/i2c_slave.c:99-106 | byte k of the accumulated value is the k-th byte received, and every byte position not yet received is zero |
| LittleEndian.ToLE | i2c_example/Core/Src/i2c_slave.c:82-83 | the REG_SIZE bytes sent for a value decode back to that value |
| LittleEndian.ToLEFromLE | i2c_example/Core/Src/i2c_slave.c:83 | encoding the value of a 4-byte buffer gives back the same bytes, so transmit and receive layouts are mutually inverse |
| LittleEndian.ZeroPadding | i2c_example/Core/Src/i2c_slave.c:99 | zero high bytes do not change a short transfer's value, so a k-byte write means the k low bytes |
| LittleEndian.ShortValueBound | i2c_example/Core/Src/i2c_slave.c:124-126 | the value of k < 4 received bytes is below 2^(8k) |
| RegisterTable.Empty | i2c_example/Core/Src/i2c_slave.c:18-23 | the initial table has every register zero, no read-only flag and no callback |
| RegisterTable.BitsDistinct | i2c_example/Core/Inc/i2c_slave.h:12 | each of the 32 register indices has its own non-zero flag bit inside one 32-bit word |
| RegisterTable.SetFlag | i2c_example/Core/Src/i2c_slave.c:33 | or-ing in a register's flag sets that flag and no other |
| RegisterTable.Register | i2c_example/Core/Inc/i2c_slave.h:19 | direct, unchecked slot access, defined only for indices inside the table, where it equals Read |
| RegisterTable.Read | i2c_example/Core/Src/i2c_slave.c:139-144 | inside the table the read returns the slot's contents; outside it returns 0xFFFFFFFF |
| RegisterTable.SetupReadonly | i2c_example/Core/Src/i2c_slave.c:29-35 | in range: the register holds the value and is flagged read-only, and no other value or flag changes; out of range: nothing changes |
| RegisterTable.SetupCallback | i2c_example/Core/Src/i2c_slave.c:42-47 | in range: the register's callback slot takes the given pointer, a handler or NULL, and no other slot changes; out of range: nothing changes |
| RegisterTable.Update | i2c_example/Core/Src/i2c_slave.c:151-161 | in range: a read-only register keeps its value and a writable one takes the new value; the callback runs exactly once if set, even when the store was skipped; no other slot or flag changes; out of range: neither the table nor the log changes |
| RegisterTable.ReadAfterSetupReadonly | i2c_example/Core/Src/i2c_slave.c:32 | a register set up read-only reads back its setup value |
| RegisterTable.ReadOnlyIgnoresUpdate | i2c_example/Core/Src/i2c_slave.c:153-159 | an update of a read-only register leaves its setup value and still runs its callback once if one is set |
| RegisterTable.LastCallbackWins | i2c_example/Core/Src/i2c_slave.c:44-46 | setting up a callback twice on one register equals setting up only the second |
| RegisterTable.UpdateRunsInstalledCallback | i2c_example/Core/Inc/i2c_slave.h:17 | an update after callback setup logs exactly one invocation of that handler for that register |
| RegisterTable.DetachedCallbackNeverRuns | i2c_example/Core/Src/i2c_slave.c:157 | after a NULL callback is set up for a register, an update of it runs no callback |
| RegisterTable.OutOfRangeIsIgnored | i2c_example/Core/Src/i2c_slave.c:153 | setup, callback setup and update with an index of 32 or more change nothing, and a read gives the sentinel |
| Transaction.Start | i2c_example/Core/Src/i2c_slave.c:13-23 | the slave starts idle with register index 0, byte count 0, a zero accumulator, no outstanding receive and an empty callback log |
| Transaction.OnListenComplete | i2c_example/Core/Src/i2c_slave.c:56-59 | listen complete re-arms listening and changes none of the slave's own state |
| Transaction.OnAddrMatch | i2c_example/Core/Src/i2c_slave.c:73-85 | a master write enters the register-address state and asks for 1 byte into registerAddress as the first frame; a master read leaves the state alone and sends REG_SIZE bytes decoding to register_read() as one first-and-last frame |
| Transaction.Deposit | i2c_example/Core/Src/i2c_slave.c:100-106 | a received byte lands in the requested buffer: the register index, or byte position k of the accumulator, with the other bytes unchanged |
| Transaction.OnRxComplete | i2c_example/Core/Src/i2c_slave.c:94-112 | after the index: data phase, count 0, zero accumulator, request for byte 0 as next frame. In any other state the count goes up by one modulo 256. Below 4 the next byte is requested, as last frame exactly when the count is 3. At 4 or more the state becomes idle and register_update is applied once |
| Transaction.OnError | i2c_example/Core/Src/i2c_slave.c:121-131 | an acknowledge failure in the data phase with at least one byte applies the accumulated value once; any other case applies nothing; the state always becomes idle and listening is re-armed |
| Transaction.Handle | i2c_example/Core/Src/i2c_slave.c:56-131 | no bus event changes the read-only flags, the callbacks or a read-only register's value, and each event runs at most one callback |
| TransactionProperties.AddressPhase | i2c_example/Core/Src/i2c_slave.c:78-100 | address match for writing and then the index byte leave the slave in the data phase for that index with nothing received |
| TransactionProperties.DataByte | i2c_example/Core/Src/i2c_slave.c:101-106 | a data byte other than the last is stored at its byte position and the next position is requested |
| TransactionProperties.WritePrefix | i2c_example/Core/Src/i2c_slave.c:94-106 | after the index and k < 4 data bytes, the accumulator holds those bytes over zeros, the count is k, and the table and log are untouched |
| TransactionProperties.LastDataByte | i2c_example/Core/Src/i2c_slave.c:107-110 | the fourth data byte makes the slave idle and applies the assembled value through register_update; the count becomes 4, the accumulator keeps the bytes and no receive is outstanding |
| TransactionProperties.FullWrite | i2c_example/Core/Src/i2c_slave.c:94-111 | a write of exactly REG_SIZE bytes ends idle with the written index still current, a count of 4, the bytes in the accumulator and no receive outstanding, and applies their little-endian value to the addressed register exactly once |
| TransactionProperties.FullWriteFiresCallbackOnce | i2c_example/Core/Src/i2c_slave.c:157-158 | a complete write to a register with a callback, read-only or not, logs exactly one invocation of it |
| TransactionProperties.FullWriteStores | i2c_example/Core/Src/i2c_slave.c:154-155 | a complete write to a writable register makes it read back the bytes' little-endian value |
| TransactionProperties.WriteThenRead | i2c_example/Core/Src/i2c_slave.c:78-111 | after a complete write to a writable register, a read with no new index sends back exactly the bytes written |
| TransactionProperties.OutOfRangeWriteIgnored | i2c_example/Core/Src/i2c_slave.c:153 | a complete write to an index of 32 or more changes neither the table nor the log |
| TransactionProperties.PartialWriteSalvaged | i2c_example/Core/Src/i2c_slave.c:124-127 | a write of 1 to 3 bytes ended by an acknowledge failure applies their zero-padded value exactly once and ends idle with the written index still current |
| TransactionProperties.UnsalvagedErrorWritesNothing | i2c_example/Core/Src/i2c_slave.c:123-130 | any other error, or an acknowledge failure before the first data byte, leaves table and log unchanged and ends idle |
| TransactionProperties.ReadTransmitsRegister | i2c_example/Core/Src/i2c_slave.c:81-84 | a read sends the little-endian bytes of register_read() for the last index, as one frame, without touching the state, table or log |
| TransactionProperties.IndexThenRead | i2c_example/Core/Src/i2c_slave.c:78-130 | writing an index, reading after a repeated start and ending with a not-acknowledge sends that register's value and writes nothing |
| TransactionProperties.ReadDuringWriteDropsPartialBytes | i2c_example/Core/Src/i2c_slave.c:82 | a read in the middle of a write replaces the accumulated bytes; a following acknowledge failure keeps the register's value but still runs its callback |
| TransactionProperties.IdleByteReappliesUpdate | i2c_example/Core/Src/i2c_slave.c:101-110 | a byte arriving while idle after a completed write applies register_update again |
| TransactionProperties.StrayByteAfterWrite | i2c_example/Core/Src/i2c_slave.c:101-110 | one more byte after a complete write applies the written value to the same register again and runs its callback again |
| TransactionProperties.ReadOnlyRegisterStable | i2c_example/Core/Src/i2c_slave.c:154-156 | over any sequence of bus events, a read-only register's value, the flag word and the callbacks never change |
| TransactionProperties.ReadOnlyAfterSetup | i2c_example/Core/Src/i2c_slave.c:29-35 | a register set up read-only reads back its setup value after any bus traffic |
| TransactionProperties.CallbacksBoundedByEvents | i2c_example/Core/Src/i2c_slave.c:157-159 | bus events only append to the callback log, at most one entry per event |
| TransactionProperties.HandlePreservesConsistent | i2c_example/Core/Src/i2c_slave.c:96-110 | in the data phase the byte count stays below REG_SIZE and an outstanding receive targets the position the count names |
| TransactionProperties.RunPreservesConsistent | i2c_example/Core/Src/i2c_slave.c:101-108 | that data-phase invariant holds after any sequence of events |
| TransactionProperties.ExampleFullWrite | i2c_example/Core/Src/i2c_slave.c:101-110 | index 5 then bytes 78 56 34 12 stores 0x12345678 and runs register 5's callback once |
| TransactionProperties.ExamplePartialWrite | i2c_example/Core/Src/i2c_slave.c:124-126 | index 7, bytes AA BB, then a not-acknowledge stores 0x0000BBAA and runs register 7's callback once |
| TransactionProperties.ExampleRead | i2c_example/Core/Src/i2c_slave.c:82-83 | register 3 holding 0x2A is sent as the single frame 2A 00 00 00 |
| TransactionProperties.ExampleCallbackReplaced | i2c_example/Core/Src/i2c_slave.c:45 | after two callback setups on one register, a write runs only the second handler |

## Left out

- Peripheral driver calls are not executed. `HAL_I2C_Slave_Sequential_Receive_IT`, `HAL_I2C_Slave_Sequential_Transmit_IT` and `HAL_I2C_EnableListen_IT` are foreign driver code, so each becomes a returned `Request`. `HAL_I2C_GetError` becomes the `ErrorKind` carried by the error event: an acknowledge failure or any other error.
- The driver's own behaviour is left out beyond storing a received byte in the requested buffer. When a transmit starts, a transfer aborts with an error, or listening completes, the outstanding receive is dropped. Which events the driver actually delivers, and in what order, is not modelled: any sequence of events is allowed.
- Interrupt context and concurrency are left out. This covers the `volatile` table, preemption and torn reads by application code. The model is a sequential step function.
- Callback bodies are application code. Running one is recorded as an `Invocation` in the log.
- Writes to the table by application code or by callbacks are left out. `REGISTER(n)` (`i2c_slave.h:19`) is an lvalue, so such code can store into any slot, including a read-only one. The model assumes it does not: read-only means read-only against the bus, and every read-only result in the model holds only under that assumption.
- Pointer arithmetic and memory layout are left out. The model uses explicit little-endian byte sequences. `i2c_slave.c:106` passes `((uint8_t*) registerValue) + registerByteCount`, which is the value cast to a pointer rather than the address of `registerValue`. The model follows the evident intent instead: byte k of the transfer goes into byte position k of `registerValue`, as line 100 does for byte 0.
- SetupReadonly, SetupCallback: take a `nat` index. The C functions take a signed `int` and check only `reg < MAX_REGS`, so in C a negative index indexes outside the arrays, which is undefined behaviour.
- RegisterTable.Bit: the flag of register 31 is modelled as bit 31. In C, `1 << 31` on a signed `int` is undefined behaviour (`i2c_slave.c:33`, `i2c_slave.c:154`).
- The `AddrMatchCode` argument and the `I2C_HandleTypeDef` handle are left out. The first is unused and the second is opaque.
- `main.h`, board bring-up and clock and pin setup are left out. They are not part of this model.
