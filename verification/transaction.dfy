/**
  The bus-transaction state machine of the I2C slave (i2c_slave.c).

  The C file keeps its state in globals (i2c_state, registerAddress,
  registerByteCount, registerValue and the register table); here they are one
  immutable `Device` record, and each interrupt callback of the peripheral
  driver is a pure function from a device to a `Reaction`: the next device and
  the one driver call, if any, the callback makes. Driver calls are not run;
  they are returned as `Request` values.

  A sequential receive asks the driver to put the next byte into a given
  buffer. The model remembers that buffer in `pending`; the `RxComplete(b)`
  event first lets the driver store `b` there (`Deposit`) and then runs the
  receive-complete callback. Byte `k` of a register value goes into byte
  position `k` of registerValue, least-significant first.
 */
module Transaction {
  import opened Wrappers
  import opened LittleEndian
  import opened RegisterTable

  /** i2c_state. */
  datatype Phase = Idle | RxRegisterAddress | RxData

  /**
    The TransferDirection of an address match, seen from the master:
    I2C_DIRECTION_TRANSMIT (the master writes) or I2C_DIRECTION_RECEIVE
    (the master reads).
   */
  datatype Direction = MasterTransmit | MasterReceive

  /** What the driver reports as the error: an acknowledge failure (HAL_I2C_ERROR_AF) or any other error. */
  datatype ErrorKind = AcknowledgeFailure | OtherError

  /** The transfer option passed with a sequential receive or transmit. */
  datatype Frame = FirstFrame | NextFrame | LastFrame | FirstAndLastFrame

  /** The buffer a requested byte is received into: registerAddress, or byte `pos` of registerValue. */
  datatype RxTarget = AddressByte | ValueByte(pos: BytePos)

  /** A call into the peripheral driver. */
  datatype Request =
    | Receive(into: RxTarget, len: nat, frame: Frame)     // HAL_I2C_Slave_Sequential_Receive_IT
    | Transmit(bytes: seq<bv8>, len: nat, frame: Frame)   // HAL_I2C_Slave_Sequential_Transmit_IT
    | EnableListen                                        // HAL_I2C_EnableListen_IT

  /** A notification from the peripheral driver. */
  datatype Event =
    | AddrMatch(dir: Direction)   // HAL_I2C_AddrCallback
    | RxComplete(b: bv8)          // byte `b` arrived, then HAL_I2C_SlaveRxCpltCallback
    | BusError(kind: ErrorKind)   // HAL_I2C_ErrorCallback
    | ListenComplete              // HAL_I2C_ListenCpltCallback

  /** A uint8_t counter. */
  type Uint8 = n: nat | n < 256

  /**
    The slave's state. `regAddress` and `byteCount` are uint8_t in the source
    and wrap modulo 256; `value` is the memory of the uint32_t registerValue,
    lowest address (least-significant byte) first; `log` lists every callback
    run so far, oldest first.
   */
  datatype Device = Device(
    phase: Phase,
    regAddress: bv8,
    byteCount: Uint8,
    value: Word,
    pending: Option<RxTarget>,
    table: Table,
    log: seq<Invocation>)

  /** The device after one callback, and the driver call the callback made. */
  datatype Reaction = Reaction(dev: Device, request: Option<Request>)

  /** The zero-initialised globals, with a register table prepared by the setup calls. */
  function Start(t: Table): (d: Device)
    ensures d.phase == Idle && d.table == t && d.log == []
    ensures d.regAddress == 0 && d.byteCount == 0
    ensures FromLE(d.value) == 0 && d.pending == None
  {
    Device(Idle, 0, 0, [0, 0, 0, 0], None, t, [])
  }

  /**
    `d'` differs from `d` only as the bus path may change it: the read-only
    flags and the callbacks are the same, every read-only register keeps its
    value, and the callback log grew by at most one entry at its end.
   */
  predicate Preserves(d: Device, d': Device) {
    && d'.table.readOnly == d.table.readOnly
    && d'.table.callbacks == d.table.callbacks
    && (forall reg: RegIndex | IsReadOnly(d.table, reg) :: d'.table.values[reg] == d.table.values[reg])
    && |d.log| <= |d'.log| <= |d.log| + 1
    && d'.log[..|d.log|] == d.log
  }

  /** register_update on the addressed register with the accumulated value. */
  function ApplyUpdate(d: Device): (d': Device)
    ensures Preserves(d, d')
  {
    var a := Update(d.table, d.regAddress as nat, FromLE(d.value));
    d.(table := a.table, log := d.log + a.fired)
  }

  /**
    HAL_I2C_ListenCpltCallback: the driver has ended the transfer, so no
    receive is outstanding; the callback re-arms listening and changes nothing.
   */
  function OnListenComplete(d: Device): (r: Reaction)
    ensures r.dev == d.(pending := None) && r.request == Some(EnableListen)
  {
    Reaction(d.(pending := None), Some(EnableListen))
  }

  /**
    HAL_I2C_AddrCallback. When the master writes, start receiving the
    one-byte register index as the first frame. When the master reads, send
    the REG_SIZE bytes of register_read() as one complete frame; the read
    overwrites registerValue and leaves i2c_state alone.
   */
  function OnAddrMatch(d: Device, dir: Direction): (r: Reaction)
    ensures dir == MasterTransmit ==>
      && r.dev == d.(phase := RxRegisterAddress, pending := Some(AddressByte))
      && r.request == Some(Receive(AddressByte, 1, FirstFrame))
    ensures dir == MasterReceive ==>
      && r.dev.phase == d.phase && r.dev.regAddress == d.regAddress && r.dev.byteCount == d.byteCount
      && r.dev.table == d.table && r.dev.log == d.log && r.dev.pending == None
      && FromLE(r.dev.value) == Read(d.table, d.regAddress as nat)
      && r.request == Some(Transmit(r.dev.value, RegSize, FirstAndLastFrame))
  {
    match dir
    case MasterTransmit =>
      Reaction(d.(phase := RxRegisterAddress, pending := Some(AddressByte)),
               Some(Receive(AddressByte, 1, FirstFrame)))
    case MasterReceive =>
      var bytes := ToLE(Read(d.table, d.regAddress as nat));
      Reaction(d.(value := bytes, pending := None), Some(Transmit(bytes, RegSize, FirstAndLastFrame)))
  }

  /**
    The driver completes the outstanding receive: byte `b` lands in the buffer
    it was asked to fill. With no receive outstanding, the byte goes nowhere.
   */
  function Deposit(d: Device, b: bv8): (d': Device)
    ensures d'.pending == None
    ensures d'.phase == d.phase && d'.byteCount == d.byteCount && d'.table == d.table && d'.log == d.log
    ensures d.pending == Some(AddressByte) ==> d'.regAddress == b && d'.value == d.value
    ensures d.pending.Some? && d.pending.value.ValueByte? ==>
      && d'.regAddress == d.regAddress
      && d'.value[d.pending.value.pos] == b
      && forall k: BytePos | k != d.pending.value.pos :: d'.value[k] == d.value[k]
    ensures d.pending == None ==> d' == d
  {
    match d.pending
    case None => d
    case Some(AddressByte) => d.(regAddress := b, pending := None)
    case Some(ValueByte(k)) => d.(value := d.value[k := b], pending := None)
  }

  /**
    HAL_I2C_SlaveRxCpltCallback. After the register index: enter the data
    phase with a zero accumulator and ask for byte 0. In every other phase
    (Idle included): count the byte (uint8_t, wrapping); below REG_SIZE ask
    for the next byte, marked as the last frame when it is the final one;
    otherwise go idle and apply register_update.
   */
  function OnRxComplete(d: Device): (r: Reaction)
    ensures r.dev.regAddress == d.regAddress
    ensures d.phase == RxRegisterAddress ==>
      && r.dev.phase == RxData && r.dev.byteCount == 0 && FromLE(r.dev.value) == 0
      && r.dev.pending == Some(ValueByte(0))
      && r.dev.table == d.table && r.dev.log == d.log
      && r.request == Some(Receive(ValueByte(0), 1, NextFrame))
    ensures d.phase != RxRegisterAddress ==>
      && r.dev.byteCount == (d.byteCount + 1) % 256
      && r.dev.value == d.value
    ensures d.phase != RxRegisterAddress && (r.dev.byteCount) < RegSize ==>
      && r.dev.phase == d.phase
      && r.dev.pending == Some(ValueByte(r.dev.byteCount))
      && r.dev.table == d.table && r.dev.log == d.log
      && r.request == Some(Receive(ValueByte(r.dev.byteCount), 1,
                                   if r.dev.byteCount == RegSize - 1 then LastFrame else NextFrame))
    ensures d.phase != RxRegisterAddress && RegSize <= r.dev.byteCount ==>
      && r.dev.phase == Idle && r.dev.pending == d.pending
      && var a := Update(d.table, d.regAddress as nat, FromLE(d.value));
      && r.dev.table == a.table && r.dev.log == d.log + a.fired
      && r.request == None
  {
    if d.phase == RxRegisterAddress then
      Reaction(d.(phase := RxData, byteCount := 0, value := [0, 0, 0, 0], pending := Some(ValueByte(0))),
               Some(Receive(ValueByte(0), 1, NextFrame)))
    else
      var count := (d.byteCount + 1) % 256;
      if count < RegSize then
        var option := if count == RegSize - 1 then LastFrame else NextFrame;
        var target := ValueByte(count);
        Reaction(d.(byteCount := count, pending := Some(target)), Some(Receive(target, 1, option)))
      else
        Reaction(ApplyUpdate(d.(phase := Idle, byteCount := count)), None)
  }

  /** The error path salvages the transfer: an acknowledge failure after at least one data byte. */
  predicate Salvages(d: Device, kind: ErrorKind) {
    kind == AcknowledgeFailure && d.phase == RxData && d.byteCount > 0
  }

  /**
    HAL_I2C_ErrorCallback. An acknowledge failure in the data phase after at
    least one byte applies the partial value through register_update; any
    other error, or one before the first data byte, applies nothing. In every
    case the transfer is over, the state becomes Idle and listening is re-armed.
   */
  function OnError(d: Device, kind: ErrorKind): (r: Reaction)
    ensures r.dev.phase == Idle && r.dev.pending == None && r.request == Some(EnableListen)
    ensures r.dev.regAddress == d.regAddress && r.dev.byteCount == d.byteCount && r.dev.value == d.value
    ensures Salvages(d, kind) ==>
      var a := Update(d.table, d.regAddress as nat, FromLE(d.value));
      r.dev.table == a.table && r.dev.log == d.log + a.fired
    ensures !Salvages(d, kind) ==> r.dev.table == d.table && r.dev.log == d.log
  {
    var d1 := if Salvages(d, kind) then ApplyUpdate(d) else d;
    Reaction(d1.(phase := Idle, pending := None), Some(EnableListen))
  }

  /**
    One driver notification. Register configuration never changes on the bus
    path, a read-only register keeps its value, and at most one callback runs.
   */
  function Handle(d: Device, e: Event): (r: Reaction)
    ensures Preserves(d, r.dev)
  {
    match e
    case AddrMatch(dir) => OnAddrMatch(d, dir)
    case RxComplete(b) => OnRxComplete(Deposit(d, b))
    case BusError(kind) => OnError(d, kind)
    case ListenComplete => OnListenComplete(d)
  }

  /** The device after a sequence of notifications, handled in order. */
  function Run(d: Device, events: seq<Event>): Device
    decreases |events|
  {
    if |events| == 0 then d else Run(Handle(d, events[0]).dev, events[1..])
  }
}
