/**
  The register table of the I2C slave: MAX_REGS 32-bit registers, a 32-bit
  word of read-only flags (bit `r` set means register `r` is read-only) and
  one optional callback per register, together with the two setup entry
  points and the bounds-checked read and update paths the bus transaction
  uses.

  A callback is a C function pointer that takes nothing and returns nothing,
  so the only thing the model can observe of it is that it ran: a `Handler`
  stands for the pointer's identity, and running it is recorded as an
  `Invocation` naming the register and the handler.
 */
module RegisterTable {
  import opened Wrappers
  import opened LittleEndian

  /** Number of registers in the table (MAX_REGS in i2c_slave.h). */
  const MaxRegs: nat := 32

  /** What the read path answers for a register index outside the table. */
  const Sentinel: bv32 := 0xFFFF_FFFF

  /** An index that selects a slot of the table. */
  type RegIndex = r: nat | r < MaxRegs

  /** The identity of one application callback function. */
  datatype Handler = Handler(id: nat)

  /** One run of `handler`, made because register `reg` was updated. */
  datatype Invocation = Invocation(reg: RegIndex, handler: Handler)

  type Values = s: seq<bv32> | |s| == MaxRegs witness seq(MaxRegs, _ => 0)

  type Callbacks = s: seq<Option<Handler>> | |s| == MaxRegs witness seq(MaxRegs, _ => None)

  datatype Table = Table(values: Values, readOnly: bv32, callbacks: Callbacks)

  /** The table before any setup: all registers zero, none read-only, no callbacks. */
  function Empty(): (t: Table)
    ensures forall r: RegIndex :: t.values[r] == 0 && !IsReadOnly(t, r) && t.callbacks[r].None?
  {
    Table(seq(MaxRegs, _ => 0), 0, seq(MaxRegs, _ => None))
  }

  /**
    The read-only flag of register `r` within the flag word, `1 << r`. The
    shift amount is a byte, as registerAddress is on the update path.
   */
  function Flag(r: bv8): bv32
    requires r < 32
  {
    1 << r
  }

  /** The read-only flag of register `r`. */
  function Bit(r: RegIndex): bv32 {
    Flag(r as bv8)
  }

  /** A register index survives the conversion to a byte. */
  lemma ByteIndex(r: RegIndex)
    ensures (r as bv8) as nat == r
  {
  }

  /** Distinct register indices have distinct, non-overlapping, non-zero flags. */
  lemma FlagsDistinct(r: bv8, s: bv8)
    requires r < 32 && s < 32
    ensures Flag(r) != 0
    ensures r != s <==> Flag(r) & Flag(s) == 0
  {
  }

  /** Every register index has its own flag bit, and the 32 flags fit one 32-bit word. */
  lemma BitsDistinct(r: RegIndex, s: RegIndex)
    ensures Bit(r) != 0
    ensures r != s <==> Bit(r) & Bit(s) == 0
  {
    ByteIndex(r);
    ByteIndex(s);
    FlagsDistinct(r as bv8, s as bv8);
  }

  predicate IsReadOnly(t: Table, r: RegIndex) {
    t.readOnly & Bit(r) != 0
  }

  /** Or-ing in the flag of `reg` sets that flag and leaves every other flag as it was. */
  lemma SetFlag(mask: bv32, reg: RegIndex, r: RegIndex)
    ensures (mask | Bit(reg)) & Bit(r) != 0 <==> r == reg || mask & Bit(r) != 0
  {
    ByteIndex(r);
    ByteIndex(reg);
    SetFlagByte(mask, reg as bv8, r as bv8);
  }

  lemma SetFlagByte(mask: bv32, reg: bv8, r: bv8)
    requires reg < 32 && r < 32
    ensures (mask | Flag(reg)) & Flag(r) != 0 <==> r == reg || mask & Flag(r) != 0
  {
  }

  /**
    REGISTER(n): direct, unchecked access to a slot. The C macro does no
    bounds check, so an index outside the table is not a valid argument;
    inside the table it agrees with `Read`, which alone answers an index
    outside it, with the sentinel.
   */
  function Register(t: Table, n: RegIndex): (v: bv32)
    ensures v == Read(t, n)
  {
    t.values[n]
  }

  /**
    register_read: the value of register `addr`, or the all-ones sentinel
    when `addr` lies outside the table.
   */
  function Read(t: Table, addr: nat): (v: bv32)
    ensures addr < MaxRegs ==> v == t.values[addr]
    ensures MaxRegs <= addr ==> v == Sentinel
  {
    if addr < MaxRegs then t.values[addr] else Sentinel
  }

  /**
    I2C_Setup_Readonly_Register: store `value` in register `reg` and set its
    read-only flag; an index outside the table changes nothing.
   */
  function SetupReadonly(t: Table, reg: nat, value: bv32): (t': Table)
    ensures reg < MaxRegs ==> Read(t', reg) == value && IsReadOnly(t', reg)
    ensures reg < MaxRegs ==>
      forall r: RegIndex | r != reg :: t'.values[r] == t.values[r] && (IsReadOnly(t', r) <==> IsReadOnly(t, r))
    ensures t'.callbacks == t.callbacks
    ensures MaxRegs <= reg ==> t' == t
  {
    if reg < MaxRegs then
      var t' := Table(t.values[reg := value], t.readOnly | Bit(reg), t.callbacks);
      forall r: RegIndex ensures IsReadOnly(t', r) <==> r == reg || IsReadOnly(t, r) {
        SetFlag(t.readOnly, reg, r);
      }
      t'
    else
      t
  }

  /**
    I2C_Setup_Callback_Register: attach `cb` to register `reg`, replacing any
    earlier callback; `None` is the NULL pointer and detaches it. An index
    outside the table changes nothing.
   */
  function SetupCallback(t: Table, reg: nat, cb: Option<Handler>): (t': Table)
    ensures reg < MaxRegs ==> t'.callbacks[reg] == cb
    ensures reg < MaxRegs ==> forall r: RegIndex | r != reg :: t'.callbacks[r] == t.callbacks[r]
    ensures t'.values == t.values && t'.readOnly == t.readOnly
    ensures MaxRegs <= reg ==> t' == t
  {
    if reg < MaxRegs then t.(callbacks := t.callbacks[reg := cb]) else t
  }

  /** The callbacks a register update runs, in order. */
  datatype Applied = Applied(table: Table, fired: seq<Invocation>)

  /**
    register_update: for an index inside the table, store `value` unless the
    register is read-only, then run the register's callback if it has one
    (also when the store was skipped); for an index outside the table, do
    nothing at all.
   */
  function Update(t: Table, addr: nat, value: bv32): (a: Applied)
    ensures a.table.readOnly == t.readOnly && a.table.callbacks == t.callbacks
    ensures forall r: RegIndex | r != addr :: a.table.values[r] == t.values[r]
    ensures addr < MaxRegs && IsReadOnly(t, addr) ==> Read(a.table, addr) == Read(t, addr)
    ensures addr < MaxRegs && !IsReadOnly(t, addr) ==> Read(a.table, addr) == value
    ensures addr < MaxRegs && t.callbacks[addr].Some? ==> a.fired == [Invocation(addr, t.callbacks[addr].value)]
    ensures addr < MaxRegs && t.callbacks[addr].None? ==> a.fired == []
    ensures MaxRegs <= addr ==> a.table == t && a.fired == []
  {
    if addr < MaxRegs then
      var values: Values := if IsReadOnly(t, addr) then t.values else t.values[addr := value];
      var fired := match t.callbacks[addr]
        case Some(cb) => [Invocation(addr, cb)]
        case None => [];
      Applied(Table(values, t.readOnly, t.callbacks), fired)
    else
      Applied(t, [])
  }

  /** After read-only setup, the register reads back the setup value. */
  lemma ReadAfterSetupReadonly(t: Table, reg: RegIndex, value: bv32)
    ensures Read(SetupReadonly(t, reg, value), reg) == value
  {
  }

  /**
    A read-only register keeps its setup value through any update, and its
    callback, if set, still runs once.
   */
  lemma ReadOnlyIgnoresUpdate(t: Table, reg: RegIndex, init: bv32, value: bv32)
    ensures var t1 := SetupReadonly(t, reg, init);
      && Read(Update(t1, reg, value).table, reg) == init
      && |Update(t1, reg, value).fired| == (if t.callbacks[reg].Some? then 1 else 0)
  {
  }

  /** Setting up a callback twice on the same register: the later one wins. */
  lemma LastCallbackWins(t: Table, reg: nat, first: Option<Handler>, second: Option<Handler>)
    ensures SetupCallback(SetupCallback(t, reg, first), reg, second) == SetupCallback(t, reg, second)
  {
  }

  /** After callback setup, an update of that register runs exactly that callback, once. */
  lemma UpdateRunsInstalledCallback(t: Table, reg: RegIndex, cb: Handler, value: bv32)
    ensures Update(SetupCallback(t, reg, Some(cb)), reg, value).fired == [Invocation(reg, cb)]
  {
  }

  /** A callback set up as NULL is detached: an update of that register runs nothing. */
  lemma DetachedCallbackNeverRuns(t: Table, reg: RegIndex, value: bv32)
    ensures Update(SetupCallback(t, reg, None), reg, value).fired == []
  {
  }

  /** Setup and updates through an index outside the table touch nothing. */
  lemma OutOfRangeIsIgnored(t: Table, addr: nat, value: bv32, cb: Option<Handler>)
    requires MaxRegs <= addr
    ensures SetupReadonly(t, addr, value) == t
    ensures SetupCallback(t, addr, cb) == t
    ensures Update(t, addr, value) == Applied(t, [])
    ensures Read(t, addr) == Sentinel
  {
  }
}
