/**
  Properties of whole bus transactions: what a sequence of driver
  notifications does to the register table and the callback log.
 */
module TransactionProperties {
  import opened Wrappers
  import opened LittleEndian
  import opened RegisterTable
  import opened Transaction

  /** One receive-complete notification per data byte, in order. */
  function DataEvents(bs: seq<bv8>): (es: seq<Event>)
    ensures |es| == |bs|
    ensures forall i :: 0 <= i < |bs| ==> es[i] == RxComplete(bs[i])
  {
    if |bs| == 0 then [] else DataEvents(bs[..|bs| - 1]) + [RxComplete(bs[|bs| - 1])]
  }

  /** A master write: address match for writing, the register index, then the data bytes. */
  function WriteEvents(addr: bv8, bs: seq<bv8>): seq<Event> {
    [AddrMatch(MasterTransmit), RxComplete(addr)] + DataEvents(bs)
  }

  /** Handling two sequences one after the other is handling their concatenation. */
  lemma {:induction false} RunAppend(d: Device, first: seq<Event>, second: seq<Event>)
    ensures Run(d, first + second) == Run(Run(d, first), second)
    decreases |first|
  {
    if |first| == 0 {
      assert first + second == second;
    } else {
      assert (first + second)[0] == first[0];
      assert (first + second)[1..] == first[1..] + second;
      RunAppend(Handle(d, first[0]).dev, first[1..], second);
    }
  }

  lemma HandleRxComplete(d: Device, b: bv8)
    ensures Handle(d, RxComplete(b)) == OnRxComplete(Deposit(d, b))
  {
  }

  lemma HandleAddrMatch(d: Device, dir: Direction)
    ensures Handle(d, AddrMatch(dir)) == OnAddrMatch(d, dir)
  {
  }

  lemma HandleBusError(d: Device, kind: ErrorKind)
    ensures Handle(d, BusError(kind)) == OnError(d, kind)
  {
  }

  /** The device in the data phase of a write to `addr` that has received the bytes `bs` so far. */
  function DataPhase(d: Device, addr: bv8, bs: seq<bv8>): Device
    requires |bs| < RegSize
  {
    d.(phase := RxData, regAddress := addr, byteCount := |bs|,
       value := bs + Zeros(RegSize - |bs|), pending := Some(ValueByte(|bs|)))
  }

  /** The register index byte moves the slave into the data phase with nothing received yet. */
  lemma AddressPhase(d: Device, addr: bv8)
    ensures Run(d, WriteEvents(addr, [])) == DataPhase(d, addr, [])
  {
    var d1 := Handle(d, AddrMatch(MasterTransmit)).dev;
    var d2 := Handle(d1, RxComplete(addr)).dev;
    assert WriteEvents(addr, []) == [AddrMatch(MasterTransmit), RxComplete(addr)];
    assert Run(d, WriteEvents(addr, [])) == Run(d1, [RxComplete(addr)]);
    assert Run(d1, [RxComplete(addr)]) == d2;
    assert d2.value == Zeros(RegSize);
  }

  /** A data byte that is not the last one lands at its position and asks for the next. */
  lemma DataByte(d: Device, addr: bv8, prefix: seq<bv8>, b: bv8)
    requires |prefix| + 1 < RegSize
    ensures Handle(DataPhase(d, addr, prefix), RxComplete(b)).dev == DataPhase(d, addr, prefix + [b])
  {
    var dp := DataPhase(d, addr, prefix);
    var d1 := Deposit(dp, b);
    assert d1.value == (prefix + [b]) + Zeros(RegSize - |prefix| - 1);
    assert d1.phase == RxData && d1.byteCount == |prefix|;
    HandleRxComplete(dp, b);
    assert (d1.byteCount + 1) % 256 == |prefix| + 1;
    assert OnRxComplete(d1).dev == d1.(byteCount := |prefix| + 1, pending := Some(ValueByte(|prefix| + 1)));
  }

  /**
    After the register index and fewer than REG_SIZE data bytes, the slave is
    in the data phase with those bytes at the bottom of a zeroed accumulator,
    waiting for the next byte position; the table and the log are untouched.
   */
  lemma {:induction false} WritePrefix(d: Device, addr: bv8, bs: seq<bv8>)
    requires |bs| < RegSize
    ensures Run(d, WriteEvents(addr, bs)) == DataPhase(d, addr, bs)
    decreases |bs|
  {
    if |bs| == 0 {
      AddressPhase(d, addr);
    } else {
      var prefix := bs[..|bs| - 1];
      var b := bs[|bs| - 1];
      assert prefix + [b] == bs;
      assert WriteEvents(addr, bs) == WriteEvents(addr, prefix) + [RxComplete(b)];
      RunAppend(d, WriteEvents(addr, prefix), [RxComplete(b)]);
      WritePrefix(d, addr, prefix);
      var dp := DataPhase(d, addr, prefix);
      assert Run(dp, [RxComplete(b)]) == Handle(dp, RxComplete(b)).dev;
      DataByte(d, addr, prefix, b);
    }
  }

  /** The last data byte completes the value and applies it through register_update. */
  lemma LastDataByte(d: Device, addr: bv8, prefix: seq<bv8>, b: bv8)
    requires |prefix| + 1 == RegSize
    ensures var a := Update(d.table, addr as nat, FromLE(prefix + [b]));
      var d' := Handle(DataPhase(d, addr, prefix), RxComplete(b)).dev;
      && d'.phase == Idle && d'.regAddress == addr && d'.table == a.table && d'.log == d.log + a.fired
      && d'.byteCount == RegSize && d'.value == prefix + [b] && d'.pending == None
  {
    var dp := DataPhase(d, addr, prefix);
    var d1 := Deposit(dp, b);
    assert d1.value == prefix + [b];
    assert d1.phase == RxData && d1.byteCount == RegSize - 1 && d1.regAddress == addr;
    assert d1.table == d.table && d1.log == d.log;
    var r := OnRxComplete(d1);
    HandleRxComplete(dp, b);
    assert (d1.byteCount + 1) % 256 == RegSize;
    assert r.dev.byteCount == RegSize;
    var a := Update(d.table, addr as nat, FromLE(prefix + [b]));
    assert r.dev.table == a.table && r.dev.log == d.log + a.fired;
    assert r.dev.regAddress == addr && r.dev.value == prefix + [b] && r.dev.pending == None;
  }

  /**
    A complete write of REG_SIZE bytes applies the little-endian value of
    the bytes to register `addr` through register_update exactly once and
    logs the callbacks that update runs. It ends idle with `addr` still the
    current register, a count of REG_SIZE, the bytes still in the
    accumulator and no receive outstanding.
   */
  lemma FullWrite(d: Device, addr: bv8, w: Word)
    ensures var a := Update(d.table, addr as nat, FromLE(w));
      var d' := Run(d, WriteEvents(addr, w));
      && d'.phase == Idle && d'.regAddress == addr && d'.table == a.table && d'.log == d.log + a.fired
      && d'.byteCount == RegSize && d'.value == w && d'.pending == None
  {
    var prefix := w[..RegSize - 1];
    assert w == prefix + [w[RegSize - 1]];
    assert WriteEvents(addr, w) == WriteEvents(addr, prefix) + [RxComplete(w[RegSize - 1])];
    RunAppend(d, WriteEvents(addr, prefix), [RxComplete(w[RegSize - 1])]);
    WritePrefix(d, addr, prefix);
    var dp := DataPhase(d, addr, prefix);
    assert Run(dp, [RxComplete(w[RegSize - 1])]) == Handle(dp, RxComplete(w[RegSize - 1])).dev;
    LastDataByte(d, addr, prefix, w[RegSize - 1]);
  }

  /** A complete write to a register with a callback runs that callback exactly once, read-only or not. */
  lemma FullWriteFiresCallbackOnce(d: Device, addr: bv8, w: Word, h: Handler)
    requires (addr as nat) < MaxRegs && d.table.callbacks[addr] == Some(h)
    ensures Run(d, WriteEvents(addr, w)).log == d.log + [Invocation(addr as nat, h)]
  {
    FullWrite(d, addr, w);
  }

  /** A complete write to a writable register stores the bytes' value. */
  lemma FullWriteStores(d: Device, addr: bv8, w: Word)
    requires (addr as nat) < MaxRegs && !IsReadOnly(d.table, addr as nat)
    ensures Read(Run(d, WriteEvents(addr, w)).table, addr as nat) == FromLE(w)
  {
    FullWrite(d, addr, w);
  }

  /**
    Writing a register and then reading without naming an index again sends
    back the bytes just written, when the register is writable: the write
    leaves its index as the current register.
   */
  lemma WriteThenRead(d: Device, addr: bv8, w: Word)
    requires (addr as nat) < MaxRegs && !IsReadOnly(d.table, addr as nat)
    ensures Handle(Run(d, WriteEvents(addr, w)), AddrMatch(MasterReceive)).request
      == Some(Transmit(w, RegSize, FirstAndLastFrame))
  {
    var d' := Run(d, WriteEvents(addr, w));
    FullWrite(d, addr, w);
    FullWriteStores(d, addr, w);
    ReadTransmitsRegister(d');
    ToLEFromLE(w);
  }

  /** A complete write to an index outside the table changes neither the table nor the log. */
  lemma OutOfRangeWriteIgnored(d: Device, addr: bv8, w: Word)
    requires MaxRegs <= addr as nat
    ensures Run(d, WriteEvents(addr, w)).table == d.table
    ensures Run(d, WriteEvents(addr, w)).log == d.log
  {
    FullWrite(d, addr, w);
  }

  /**
    A write cut short by an acknowledge failure after 1 to 3 data bytes
    applies the bytes received, zero-padded in the high bytes, through
    register_update exactly once, and ends idle.
   */
  lemma PartialWriteSalvaged(d: Device, addr: bv8, bs: seq<bv8>)
    requires 0 < |bs| < RegSize
    ensures var a := Update(d.table, addr as nat, FromLE(bs));
      var d' := Run(d, WriteEvents(addr, bs) + [BusError(AcknowledgeFailure)]);
      d'.phase == Idle && d'.regAddress == addr && d'.table == a.table && d'.log == d.log + a.fired
    ensures FromLE(bs) < 1 << (8 * |bs|)
  {
    RunAppend(d, WriteEvents(addr, bs), [BusError(AcknowledgeFailure)]);
    WritePrefix(d, addr, bs);
    var dp := DataPhase(d, addr, bs);
    assert Run(dp, [BusError(AcknowledgeFailure)]) == Handle(dp, BusError(AcknowledgeFailure)).dev;
    HandleBusError(dp, AcknowledgeFailure);
    assert Salvages(dp, AcknowledgeFailure);
    ZeroPadding(bs, RegSize - |bs|);
    assert FromLE(dp.value) == FromLE(bs);
    var a := Update(d.table, addr as nat, FromLE(bs));
    assert ApplyUpdate(dp) == dp.(table := a.table, log := d.log + a.fired);
    ShortValueBound(bs);
  }

  /**
    An error that salvages nothing (any error other than an acknowledge
    failure, or an acknowledge failure before the first data byte) leaves the
    table and the log as they were, and ends idle.
   */
  lemma UnsalvagedErrorWritesNothing(d: Device, addr: bv8, bs: seq<bv8>, kind: ErrorKind)
    requires |bs| < RegSize
    requires kind == OtherError || |bs| == 0
    ensures var d' := Run(d, WriteEvents(addr, bs) + [BusError(kind)]);
      d'.phase == Idle && d'.table == d.table && d'.log == d.log
  {
    RunAppend(d, WriteEvents(addr, bs), [BusError(kind)]);
    WritePrefix(d, addr, bs);
    var dp := DataPhase(d, addr, bs);
    assert Run(dp, [BusError(kind)]) == Handle(dp, BusError(kind)).dev;
  }

  /**
    A read transmits the REG_SIZE little-endian bytes of register_read() for
    the last addressed register, as one complete frame.
   */
  lemma ReadTransmitsRegister(d: Device)
    ensures var r := Handle(d, AddrMatch(MasterReceive));
      && r.request == Some(Transmit(ToLE(Read(d.table, d.regAddress as nat)), RegSize, FirstAndLastFrame))
      && r.dev.phase == d.phase && r.dev.table == d.table && r.dev.log == d.log
  {
    var r := Handle(d, AddrMatch(MasterReceive));
    ToLEFromLE(r.dev.value);
  }

  /**
    The usual register read: the master writes the register index, then
    reads after a repeated start and ends with a not-acknowledge. The slave
    sends the register's value, and nothing is written and no callback runs.
   */
  lemma IndexThenRead(d: Device, addr: bv8)
    ensures var d2 := Run(d, WriteEvents(addr, []));
      var r := Handle(d2, AddrMatch(MasterReceive));
      var d4 := Handle(r.dev, BusError(AcknowledgeFailure)).dev;
      && r.request == Some(Transmit(ToLE(Read(d.table, addr as nat)), RegSize, FirstAndLastFrame))
      && d4.phase == Idle && d4.table == d.table && d4.log == d.log
  {
    WritePrefix(d, addr, []);
    ReadTransmitsRegister(Run(d, WriteEvents(addr, [])));
  }

  /**
    As written, a read in the middle of a write replaces the accumulated bytes
    with the register's current value: if an acknowledge failure follows, the
    register keeps its value, yet register_update runs and its callback fires.
   */
  lemma ReadDuringWriteDropsPartialBytes(d: Device, addr: bv8, bs: seq<bv8>)
    requires 0 < |bs| < RegSize && (addr as nat) < MaxRegs
    ensures var d' := Run(d, WriteEvents(addr, bs) + [AddrMatch(MasterReceive), BusError(AcknowledgeFailure)]);
      var a := Update(d.table, addr as nat, Read(d.table, addr as nat));
      && d'.table == d.table
      && d'.log == d.log + a.fired
  {
    RunAppend(d, WriteEvents(addr, bs), [AddrMatch(MasterReceive), BusError(AcknowledgeFailure)]);
    WritePrefix(d, addr, bs);
    var dp := DataPhase(d, addr, bs);
    var r := OnAddrMatch(dp, MasterReceive);
    HandleAddrMatch(dp, MasterReceive);
    assert r.dev.phase == RxData && r.dev.byteCount == |bs| && r.dev.regAddress == addr;
    assert Salvages(r.dev, AcknowledgeFailure);
    var d4 := OnError(r.dev, AcknowledgeFailure).dev;
    HandleBusError(r.dev, AcknowledgeFailure);
    assert Run(dp, [AddrMatch(MasterReceive), BusError(AcknowledgeFailure)]) == Run(r.dev, [BusError(AcknowledgeFailure)]);
    assert Run(r.dev, [BusError(AcknowledgeFailure)]) == d4;
    var a := Update(d.table, addr as nat, Read(d.table, addr as nat));
    assert a.table.values == d.table.values;
  }

  /**
    As written, the receive-complete callback does not check for the data
    phase: a byte arriving while idle after a completed write counts on and
    applies register_update a second time.
   */
  lemma IdleByteReappliesUpdate(d: Device, b: bv8)
    requires d.phase == Idle && d.pending == None && RegSize - 1 <= d.byteCount < 255
    ensures var a := Update(d.table, d.regAddress as nat, FromLE(d.value));
      var d' := Handle(d, RxComplete(b)).dev;
      d'.phase == Idle && d'.byteCount == d.byteCount + 1 && d'.table == a.table && d'.log == d.log + a.fired
  {
  }

  /**
    The stray byte of `IdleByteReappliesUpdate` after a complete write: it
    applies the value just written to the same register a second time, so a
    callback on that register runs again.
   */
  lemma StrayByteAfterWrite(d: Device, addr: bv8, w: Word, b: bv8)
    ensures var d1 := Run(d, WriteEvents(addr, w));
      var a := Update(d1.table, addr as nat, FromLE(w));
      var d2 := Handle(d1, RxComplete(b)).dev;
      && d2.phase == Idle && d2.byteCount == RegSize + 1
      && d2.table == a.table && d2.log == d1.log + a.fired
  {
    var d1 := Run(d, WriteEvents(addr, w));
    FullWrite(d, addr, w);
    IdleByteReappliesUpdate(d1, b);
  }

  /** A read-only register keeps its value, and the configuration stays fixed, whatever the bus does. */
  lemma {:induction false} ReadOnlyRegisterStable(d: Device, events: seq<Event>, reg: RegIndex)
    requires IsReadOnly(d.table, reg)
    ensures Run(d, events).table.values[reg] == d.table.values[reg]
    ensures Run(d, events).table.readOnly == d.table.readOnly
    ensures Run(d, events).table.callbacks == d.table.callbacks
    decreases |events|
  {
    if |events| > 0 {
      var d1 := Handle(d, events[0]).dev;
      ReadOnlyRegisterStable(d1, events[1..], reg);
    }
  }

  /** A register set up read-only reads back its setup value after any bus traffic. */
  lemma ReadOnlyAfterSetup(t: Table, reg: RegIndex, value: bv32, events: seq<Event>)
    ensures Read(Run(Start(SetupReadonly(t, reg, value)), events).table, reg) == value
  {
    ReadOnlyRegisterStable(Start(SetupReadonly(t, reg, value)), events, reg);
  }

  /** Each notification runs at most one callback, so a sequence runs at most one per notification. */
  lemma {:induction false} CallbacksBoundedByEvents(d: Device, events: seq<Event>)
    ensures |d.log| <= |Run(d, events).log| <= |d.log| + |events|
    ensures Run(d, events).log[..|d.log|] == d.log
    decreases |events|
  {
    if |events| > 0 {
      var d1 := Handle(d, events[0]).dev;
      CallbacksBoundedByEvents(d1, events[1..]);
      assert Run(d, events).log[..|d1.log|] == d1.log;
      assert d1.log[..|d.log|] == d.log;
    }
  }

  /**
    In the data phase the byte count stays below REG_SIZE, and
    an outstanding data-byte receive targets the position the count names.
   */
  predicate Consistent(d: Device) {
    d.phase == RxData ==>
      && d.byteCount < RegSize
      && (d.pending.Some? ==> d.pending.value == ValueByte(d.byteCount))
  }

  lemma StartIsConsistent(t: Table)
    ensures Consistent(Start(t))
  {
  }

  lemma HandlePreservesConsistent(d: Device, e: Event)
    requires Consistent(d)
    ensures Consistent(Handle(d, e).dev)
  {
  }

  lemma {:induction false} RunPreservesConsistent(d: Device, events: seq<Event>)
    requires Consistent(d)
    ensures Consistent(Run(d, events))
    decreases |events|
  {
    if |events| > 0 {
      HandlePreservesConsistent(d, events[0]);
      RunPreservesConsistent(Handle(d, events[0]).dev, events[1..]);
    }
  }

  /** Index 5 followed by the bytes 78 56 34 12 writes 0x12345678 and runs register 5's callback once. */
  lemma ExampleFullWrite(h: Handler)
    ensures var d := Run(Start(SetupCallback(Empty(), 5, Some(h))), WriteEvents(5, [0x78, 0x56, 0x34, 0x12]));
      Read(d.table, 5) == 0x1234_5678 && d.log == [Invocation(5, h)]
  {
    var w: Word := [0x78, 0x56, 0x34, 0x12];
    var d := Start(SetupCallback(Empty(), 5, Some(h)));
    FullWrite(d, 5, w);
    ByteExtensionality(FromLE(w), 0x1234_5678);
  }

  /** Index 7, bytes AA BB, then a not-acknowledge writes 0x0000BBAA and runs register 7's callback once. */
  lemma ExamplePartialWrite(h: Handler)
    ensures var d := Run(Start(SetupCallback(Empty(), 7, Some(h))), WriteEvents(7, [0xAA, 0xBB]) + [BusError(AcknowledgeFailure)]);
      Read(d.table, 7) == 0x0000_BBAA && d.log == [Invocation(7, h)] && d.phase == Idle
  {
    var bs: seq<bv8> := [0xAA, 0xBB];
    PartialWriteSalvaged(Start(SetupCallback(Empty(), 7, Some(h))), 7, bs);
    ByteExtensionality(FromLE(bs), 0x0000_BBAA);
  }

  /** Register 3 holding 0x2A is read back as the single frame 2A 00 00 00. */
  lemma ExampleRead()
    ensures var t := Update(Empty(), 3, 0x2A).table;
      var d := Run(Start(t), WriteEvents(3, []));
      Handle(d, AddrMatch(MasterReceive)).request == Some(Transmit([0x2A, 0x00, 0x00, 0x00], 4, FirstAndLastFrame))
  {
    var t := Update(Empty(), 3, 0x2A).table;
    IndexThenRead(Start(t), 3);
  }

  /** With a callback set up twice, a write runs only the second one. */
  lemma ExampleCallbackReplaced(first: Handler, second: Handler, w: Word)
    ensures var t := SetupCallback(SetupCallback(Empty(), 9, Some(first)), 9, Some(second));
      Run(Start(t), WriteEvents(9, w)).log == [Invocation(9, second)]
  {
    var t := SetupCallback(SetupCallback(Empty(), 9, Some(first)), 9, Some(second));
    FullWriteFiresCallbackOnce(Start(t), 9, w, second);
  }
}
