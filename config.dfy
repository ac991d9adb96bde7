/**
 * The start-up configuration of the accelerometer: CTRL_REG1 is written
 * with 0x57 only when the value read differs from it, CTRL_REG4 is written
 * with 0x98 every time, and each register is read back afterwards.
 */
module Config {
  import opened Types

  const StatusReg: Byte := 0x27
  const CtrlReg1: Byte := 0x20
  /** 100 Hz, normal mode, X, Y and Z enabled. */
  const CtrlReg1Set: Byte := 0x57
  const CtrlReg4: Byte := 0x23
  /** Block data update, high resolution, full scale +-4 g. */
  const CtrlReg4Set: Byte := 0x98

  /** One register transaction with the accelerometer. */
  datatype Transaction = Read(reg: Byte) | Write(reg: Byte, value: Byte)

  /** The outcome of the transaction `i` places ahead: no error once the list runs out. */
  function Outcome(faults: seq<ErrorCode>, i: nat): ErrorCode
  {
    if i < |faults| then faults[i] else NoError
  }

  /** The outcomes left after `n` transactions. */
  function Drop(faults: seq<ErrorCode>, n: nat): (rest: seq<ErrorCode>)
    ensures forall i: nat :: Outcome(rest, i) == Outcome(faults, n + i)
  {
    if n <= |faults| then faults[n..] else []
  }

  /**
   * The accelerometer behind the I2C driver: its register map, the outcome
   * of each coming transaction in order, and the transactions issued so far.
   */
  datatype Bus = Bus(regs: map<Byte, Byte>, faults: seq<ErrorCode>, log: seq<Transaction>)
  {
    predicate Valid()
    {
      StatusReg in regs && CtrlReg1 in regs && CtrlReg4 in regs
    }

    /** The bus after one more transaction `t`, before its effect on the registers. */
    function Issue(t: Transaction): Bus
    {
      this.(faults := Drop(faults, 1), log := log + [t])
    }
  }

  /** What a driver call hands back: the bus afterwards, the error code and the destination's value. */
  datatype Reply = Reply(bus: Bus, error: ErrorCode, value: Byte)

  /**
   * `I2C_Peripheral_ReadRegister`: on success the destination receives the
   * register's value; on failure it keeps what it held (`dest`).
   */
  function ReadRegister(bus: Bus, reg: Byte, dest: Byte): (r: Reply)
    requires reg in bus.regs
    ensures r.bus.regs == bus.regs && r.bus.log == bus.log + [Read(reg)]
    ensures r.bus.faults == Drop(bus.faults, 1) && r.error == Outcome(bus.faults, 0)
    ensures r.error == NoError ==> r.value == bus.regs[reg]
    ensures r.error != NoError ==> r.value == dest
  {
    var e := Outcome(bus.faults, 0);
    Reply(bus.Issue(Read(reg)), e, if e == NoError then bus.regs[reg] else dest)
  }

  /**
   * `I2C_Peripheral_WriteRegister`: on success the register takes the value;
   * on failure no register changes.
   */
  function WriteRegister(bus: Bus, reg: Byte, value: Byte): (r: Reply)
    ensures r.bus.log == bus.log + [Write(reg, value)]
    ensures r.bus.faults == Drop(bus.faults, 1) && r.error == Outcome(bus.faults, 0)
    ensures r.error == NoError ==> reg in r.bus.regs && r.bus.regs[reg] == value
    ensures forall q | q in bus.regs && (q != reg || r.error != NoError) :: q in r.bus.regs && r.bus.regs[q] == bus.regs[q]
  {
    var e := Outcome(bus.faults, 0);
    Reply(bus.Issue(Write(reg, value)).(regs := if e == NoError then bus.regs[reg := value] else bus.regs), e, value)
  }

  /** The CTRL_REG1 transactions, given whether the register is rewritten. */
  function Ctrl1Sequence(write: bool): (ts: seq<Transaction>)
    ensures Write(CtrlReg1, CtrlReg1Set) in ts <==> write
    ensures forall t | t in ts && t.Write? :: t == Write(CtrlReg1, CtrlReg1Set)
  {
    [Read(StatusReg), Read(CtrlReg1)]
    + (if write then [Write(CtrlReg1, CtrlReg1Set)] else [])
    + [Read(CtrlReg1)]
  }

  /** The CTRL_REG4 transactions: always read, write 0x98, read back. */
  const Ctrl4Sequence: seq<Transaction> := [Read(CtrlReg4), Write(CtrlReg4, CtrlReg4Set), Read(CtrlReg4)]

  /**
   * The value of `ctrl_reg1` when it is compared with 0x57: the register if
   * the read (the second transaction) succeeded, otherwise whatever the
   * uninitialised local held.
   */
  function Ctrl1Seen(bus: Bus, stale1: Byte): (v: Byte)
    requires bus.Valid()
    ensures Outcome(bus.faults, 1) == NoError ==> v == bus.regs[CtrlReg1]
    ensures Outcome(bus.faults, 1) != NoError ==> v == stale1
  {
    if Outcome(bus.faults, 1) == NoError then bus.regs[CtrlReg1] else stale1
  }

  /**
   * Whether the start-up sequence writes CTRL_REG1: when the register was
   * read, exactly when it is not 0x57; after a failed read, exactly when the
   * stale local is not 0x57.
   */
  function RewritesCtrl1(bus: Bus, stale1: Byte): (write: bool)
    requires bus.Valid()
    ensures Outcome(bus.faults, 1) == NoError ==> (write <==> bus.regs[CtrlReg1] != CtrlReg1Set)
    ensures Outcome(bus.faults, 1) != NoError ==> (write <==> stale1 != CtrlReg1Set)
  {
    Ctrl1Seen(bus, stale1) != CtrlReg1Set
  }

  /**
   * From reading STATUS_REG to reading CTRL_REG1 back. `stale1` is the
   * indeterminate initial value of `ctrl_reg1`.
   */
  method SetCtrl1(bus0: Bus, stale1: Byte) returns (bus: Bus, ctrlReg1: Byte, error: ErrorCode)
    requires bus0.Valid()
    ensures bus.log == bus0.log + Ctrl1Sequence(RewritesCtrl1(bus0, stale1))
    ensures bus.faults == Drop(bus0.faults, |Ctrl1Sequence(RewritesCtrl1(bus0, stale1))|)
    ensures bus.regs == (if RewritesCtrl1(bus0, stale1) && Outcome(bus0.faults, 2) == NoError
                         then bus0.regs[CtrlReg1 := CtrlReg1Set] else bus0.regs)
    ensures error == Outcome(bus0.faults, |Ctrl1Sequence(RewritesCtrl1(bus0, stale1))| - 1)
    ensures ctrlReg1 == (if error == NoError then bus.regs[CtrlReg1] else CtrlReg1Set)
  {
    bus := bus0;
    var r := ReadRegister(bus, StatusReg, 0);
    bus, error := r.bus, r.error;

    r := ReadRegister(bus, CtrlReg1, stale1);
    bus, error, ctrlReg1 := r.bus, r.error, r.value;
    if ctrlReg1 != CtrlReg1Set {
      ctrlReg1 := CtrlReg1Set;
      r := WriteRegister(bus, CtrlReg1, ctrlReg1);
      bus, error := r.bus, r.error;
    }

    r := ReadRegister(bus, CtrlReg1, ctrlReg1);
    bus, error, ctrlReg1 := r.bus, r.error, r.value;
  }

  /**
   * From reading CTRL_REG4 to reading it back: the write's error code is
   * overwritten by the read that follows, so a failed write is never seen.
   */
  method SetCtrl4(bus0: Bus, stale4: Byte) returns (bus: Bus, ctrlReg4: Byte, error: ErrorCode)
    requires bus0.Valid()
    ensures bus.log == bus0.log + Ctrl4Sequence
    ensures bus.faults == Drop(bus0.faults, 3)
    ensures bus.regs == (if Outcome(bus0.faults, 1) == NoError
                         then bus0.regs[CtrlReg4 := CtrlReg4Set] else bus0.regs)
    ensures error == Outcome(bus0.faults, 2)
    ensures ctrlReg4 == (if error == NoError then bus.regs[CtrlReg4] else CtrlReg4Set)
  {
    bus := bus0;
    var r := ReadRegister(bus, CtrlReg4, stale4);
    bus, error, ctrlReg4 := r.bus, r.error, r.value;

    ctrlReg4 := CtrlReg4Set;
    r := WriteRegister(bus, CtrlReg4, ctrlReg4);
    bus, error := r.bus, r.error;

    r := ReadRegister(bus, CtrlReg4, ctrlReg4);
    bus, error, ctrlReg4 := r.bus, r.error, r.value;
  }

  /**
   * The whole start-up configuration. `stale1` and `stale4` are the
   * indeterminate initial values of `ctrl_reg1` and `ctrl_reg4`.
   */
  method Configure(bus0: Bus, stale1: Byte, stale4: Byte)
    returns (bus: Bus, ctrlReg1: Byte, ctrlReg4: Byte, error: ErrorCode)
    requires bus0.Valid()
    ensures bus.Valid() && bus.regs.Keys == bus0.regs.Keys
    ensures var write := RewritesCtrl1(bus0, stale1);
            var n := |Ctrl1Sequence(write)|;
            && bus.log == bus0.log + Ctrl1Sequence(write) + Ctrl4Sequence
            && bus.faults == Drop(bus0.faults, n + 3)
            && (forall r | r in bus.regs && r != CtrlReg1 && r != CtrlReg4 :: bus.regs[r] == bus0.regs[r])
            && bus.regs[CtrlReg1] == (if write && Outcome(bus0.faults, 2) == NoError then CtrlReg1Set else bus0.regs[CtrlReg1])
            && bus.regs[CtrlReg4] == (if Outcome(bus0.faults, n + 1) == NoError then CtrlReg4Set else bus0.regs[CtrlReg4])
            && error == Outcome(bus0.faults, n + 2)
            && ctrlReg1 == (if Outcome(bus0.faults, n - 1) == NoError then bus.regs[CtrlReg1] else CtrlReg1Set)
            && ctrlReg4 == (if error == NoError then bus.regs[CtrlReg4] else CtrlReg4Set)
    ensures (forall i | 0 <= i < 7 :: Outcome(bus0.faults, i) == NoError) ==>
            bus.regs == bus0.regs[CtrlReg1 := CtrlReg1Set][CtrlReg4 := CtrlReg4Set] &&
            ctrlReg1 == CtrlReg1Set && ctrlReg4 == CtrlReg4Set && error == NoError
  {
    var mid;
    mid, ctrlReg1, error := SetCtrl1(bus0, stale1);
    bus, ctrlReg4, error := SetCtrl4(mid, stale4);
  }
}
