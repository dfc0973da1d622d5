/**
 * What each driver operation does on the bus, as functions of the build, the
 * session and the bus oracle, together with the properties the driver promises:
 * the wire encoding of register accesses, the discovery sweep, the firmware read
 * that stops at the first failure, the device-info composite, and the session
 * transitions of init and deinit in each build.
 */
module Protocol {
  import opened BurstFireApi
  import opened Transport

  /**
   * The three behaviours the two driver sources compile to: the ESP-IDF-only C
   * file, the C++ file built for ESP-IDF, and the C++ file built for Arduino.
   */
  datatype Build = IdfC | IdfCpp | ArduinoCpp

  /** The driver's process-wide state: g_initialized, g_port and (Arduino) the pins. */
  datatype Session = Session(initialized: bool, port: int, sdaPin: int, sclPin: int)

  // ---------------------------------------------------------------------------
  // Wire encoding

  /** The single byte sent before a register read: the register id in read-any mode. */
  function ReadCommand(reg: Byte): (cmd: Byte)
    ensures cmd & 0x80 == 0x80
    ensures cmd & 0x7F == reg & 0x7F
  {
    0x80 | reg
  }

  /** The three kinds of frame the driver puts on the wire. */
  datatype Command = SetRegister(reg: Byte, val: Byte) | GetRegister(reg: Byte) | Ping

  function Frame(c: Command): seq<Byte> {
    match c
    case SetRegister(reg, val) => [reg, val]
    case GetRegister(reg) => [ReadCommand(reg)]
    case Ping => []
  }

  /**
   * A decoding that inverts Frame: no payload is the probe, one byte with the
   * top bit set is a register read, two bytes are a register write.
   */
  function Parse(bytes: seq<Byte>): Option<Command> {
    if |bytes| == 0 then Some(Ping)
    else if |bytes| == 1 && bytes[0] & 0x80 == 0x80 then Some(GetRegister(bytes[0] & 0x7F))
    else if |bytes| == 2 then Some(SetRegister(bytes[0], bytes[1]))
    else None
  }

  /** Every frame the driver sends is read back as the command it encodes. */
  lemma FrameRoundTrip(c: Command)
    requires c.GetRegister? ==> c.reg < 0x80
    ensures Parse(Frame(c)) == Some(c)
  {
  }

  /** Over the register map, the read-mode byte is injective and recovers the register. */
  lemma ReadCommandRecoversRegister()
    ensures forall reg :: reg in REGISTERS ==> Parse(Frame(GetRegister(reg))) == Some(GetRegister(reg))
    ensures forall r1, r2 :: r1 in REGISTERS && r2 in REGISTERS && ReadCommand(r1) == ReadCommand(r2) ==> r1 == r2
  {
    RegisterMapDistinct();
  }

  // ---------------------------------------------------------------------------
  // Register access (write_reg, read_reg, the presence probe)

  /** What write_reg returns for a frame: the ESP-IDF result as is, or ESP_FAIL on any Wire error. */
  function WriteOutcome(build: Build, o: Oracle, addr: Byte, data: seq<Byte>): EspErr {
    if build == ArduinoCpp then
      (if o.endTransmission(addr, data) == 0 then ESP_OK else ESP_FAIL)
    else o.write(addr, data)
  }

  /** The bus call a write of `data` makes. */
  function WriteTxn(build: Build, port: int, addr: Byte, data: seq<Byte>): Txn {
    if build == ArduinoCpp then WireTransmission(addr, data) else I2cWrite(port, addr, data)
  }

  /** The presence probe: a zero-length write that the device acknowledges. */
  predicate Acks(build: Build, o: Oracle, addr: Byte) {
    WriteOutcome(build, o, addr, Frame(Ping)) == ESP_OK
  }

  /** What read_reg yields for a register. */
  function ReadOutcome(build: Build, o: Oracle, addr: Byte, reg: Byte): ReadResult {
    var cmd := Frame(GetRegister(reg));
    if build == ArduinoCpp then
      if o.endTransmission(addr, cmd) != 0 then ReadErr(ESP_FAIL)
      else
        var answer := o.requestFrom(addr, cmd, 1);
        if answer.0 != 1 || answer.1 == [] then ReadErr(ESP_FAIL) else ReadOk(answer.1[0])
    else o.writeRead(addr, cmd)
  }

  /** The bus calls read_reg makes. */
  function ReadTxns(build: Build, port: int, o: Oracle, addr: Byte, reg: Byte): seq<Txn> {
    var cmd := Frame(GetRegister(reg));
    if build == ArduinoCpp then
      [WireTransmission(addr, cmd)] + (if o.endTransmission(addr, cmd) == 0 then [WireRequest(addr, 1)] else [])
    else [I2cWriteRead(port, addr, cmd, 1)]
  }

  function Code(r: ReadResult): EspErr {
    if r.ReadOk? then ESP_OK else r.err
  }

  /** A register read puts exactly one byte on the wire, 0x80 | reg, addressed to `addr`. */
  lemma ReadSendsCommand(build: Build, port: int, o: Oracle, addr: Byte, reg: Byte)
    ensures build != ArduinoCpp ==> ReadTxns(build, port, o, addr, reg) == [I2cWriteRead(port, addr, [0x80 | reg], 1)]
    ensures build == ArduinoCpp ==>
      |ReadTxns(build, port, o, addr, reg)| == (if o.endTransmission(addr, [0x80 | reg]) == 0 then 2 else 1)
      && ReadTxns(build, port, o, addr, reg)[0] == WireTransmission(addr, [0x80 | reg])
      && (o.endTransmission(addr, [0x80 | reg]) == 0 ==> ReadTxns(build, port, o, addr, reg)[1] == WireRequest(addr, 1))
  {
  }

  // ---------------------------------------------------------------------------
  // Discovery sweep (scan_devices)

  const SCAN_RANGE: seq<Byte> := [0x20, 0x21, 0x22, 0x23]

  ghost predicate StrictlyAscending(s: seq<Byte>) {
    forall i, j :: 0 <= i < j < |s| ==> s[i] < s[j]
  }

  /** The addresses of `s` that acknowledge the presence probe, in the order of `s`. */
  function Filter(build: Build, o: Oracle, s: seq<Byte>): seq<Byte> {
    if s == [] then []
    else Filter(build, o, s[..|s| - 1]) + (if Acks(build, o, s[|s| - 1]) then [s[|s| - 1]] else [])
  }

  /** The addresses of the discovery window that answer the probe, in probe order. */
  function Responders(build: Build, o: Oracle): seq<Byte> {
    Filter(build, o, SCAN_RANGE)
  }

  /** One probe per address of `addrs`, in order. */
  function Probes(build: Build, port: int, addrs: seq<Byte>): seq<Txn> {
    if addrs == [] then []
    else Probes(build, port, addrs[..|addrs| - 1]) + [WriteTxn(build, port, addrs[|addrs| - 1], Frame(Ping))]
  }

  /** The sweep probes 0x20, 0x21, 0x22 and 0x23, once each and in that order. */
  lemma ScanProbes(build: Build, port: int)
    ensures Probes(build, port, SCAN_RANGE) ==
      [WriteTxn(build, port, 0x20, []), WriteTxn(build, port, 0x21, []), WriteTxn(build, port, 0x22, []), WriteTxn(build, port, 0x23, [])]
  {
    assert SCAN_RANGE[..3][..2][..1] == [0x20];
    assert SCAN_RANGE[..3][..2] == [0x20, 0x21];
    assert SCAN_RANGE[..3] == [0x20, 0x21, 0x22];
    assert Probes(build, port, [0x20]) == [WriteTxn(build, port, 0x20, [])];
    assert Probes(build, port, [0x20, 0x21]) == [WriteTxn(build, port, 0x20, []), WriteTxn(build, port, 0x21, [])];
    assert Probes(build, port, [0x20, 0x21, 0x22]) ==
      [WriteTxn(build, port, 0x20, []), WriteTxn(build, port, 0x21, []), WriteTxn(build, port, 0x22, [])];
  }

  lemma {:induction false} FilterLength(build: Build, o: Oracle, s: seq<Byte>)
    ensures |Filter(build, o, s)| <= |s|
  {
    if s != [] {
      FilterLength(build, o, s[..|s| - 1]);
    }
  }

  /** Filtering a prefix keeps no more than filtering the whole. */
  lemma {:induction false} FilterPrefixLength(build: Build, o: Oracle, s: seq<Byte>, k: nat)
    requires k <= |s|
    ensures |Filter(build, o, s[..k])| <= |Filter(build, o, s)|
    decreases |s| - k
  {
    if k < |s| {
      var init := s[..|s| - 1];
      assert init[..k] == s[..k];
      FilterPrefixLength(build, o, init, k);
    } else {
      assert s[..k] == s;
    }
  }

  /** The scan's uint8_t loop counter runs through SCAN_RANGE and stops at 0x24. */
  lemma ScanAddressStep(k: nat)
    requires k < |SCAN_RANGE|
    ensures SCAN_RANGE[k] <= SCAN_LAST
    ensures SCAN_RANGE[k] + 1 == if k + 1 < |SCAN_RANGE| then SCAN_RANGE[k + 1] else 0x24
  {
  }

  /** Filtering one more element of `s` appends it when it is kept. */
  lemma FilterStep(build: Build, o: Oracle, s: seq<Byte>, k: nat)
    requires k < |s|
    ensures Filter(build, o, s[..k + 1]) == Filter(build, o, s[..k]) + if Acks(build, o, s[k]) then [s[k]] else []
  {
    assert s[..k + 1][..k] == s[..k];
  }

  /** Probing one more address of `addrs` appends its probe. */
  lemma ProbesStep(build: Build, port: int, addrs: seq<Byte>, k: nat)
    requires k < |addrs|
    ensures Probes(build, port, addrs[..k + 1]) == Probes(build, port, addrs[..k]) + [WriteTxn(build, port, addrs[k], [])]
  {
    assert addrs[..k + 1][..k] == addrs[..k];
  }

  lemma {:induction false} FilterMembers(build: Build, o: Oracle, s: seq<Byte>)
    ensures forall x :: x in Filter(build, o, s) <==> x in s && Acks(build, o, x)
  {
    if s != [] {
      var init := s[..|s| - 1];
      FilterMembers(build, o, init);
      assert s == init + [s[|s| - 1]];
    }
  }

  lemma {:induction false} FilterAscending(build: Build, o: Oracle, s: seq<Byte>)
    requires StrictlyAscending(s)
    ensures StrictlyAscending(Filter(build, o, s))
  {
    if s != [] {
      var init, last := s[..|s| - 1], s[|s| - 1];
      assert s == init + [last];
      AscendingSplit(init, last);
      FilterAscending(build, o, init);
      FilterBelow(build, o, init, last);
      if Acks(build, o, last) {
        AscendingAppend(Filter(build, o, init), last);
      }
    }
  }

  /** An ascending sequence ending in `last`: what comes before is ascending and below `last`. */
  lemma AscendingSplit(init: seq<Byte>, last: Byte)
    requires StrictlyAscending(init + [last])
    ensures StrictlyAscending(init)
    ensures forall i :: 0 <= i < |init| ==> init[i] < last
  {
    var s := init + [last];
    forall i | 0 <= i < |init| ensures init[i] < last {
      assert init[i] == s[i] && last == s[|init|];
    }
    forall i, j | 0 <= i < j < |init| ensures init[i] < init[j] {
      assert init[i] == s[i] && init[j] == s[j];
    }
  }

  /** Appending an element above everything in an ascending sequence keeps it ascending. */
  lemma AscendingAppend(f: seq<Byte>, last: Byte)
    requires StrictlyAscending(f)
    requires forall i :: 0 <= i < |f| ==> f[i] < last
    ensures StrictlyAscending(f + [last])
  {
    var g := f + [last];
    forall i, j | 0 <= i < j < |g| ensures g[i] < g[j] {
      assert g[i] == f[i];
    }
  }

  /** Every address kept from `s` lies below a bound that all of `s` lies below. */
  lemma {:induction false} FilterBelow(build: Build, o: Oracle, s: seq<Byte>, bound: Byte)
    requires forall i :: 0 <= i < |s| ==> s[i] < bound
    ensures forall i :: 0 <= i < |Filter(build, o, s)| ==> Filter(build, o, s)[i] < bound
  {
    if s != [] {
      FilterBelow(build, o, s[..|s| - 1], bound);
    }
  }

  /**
   * The scan reports at most four addresses, strictly ascending, and an address
   * is reported exactly when it lies in 0x20..0x23 and answered its probe.
   */
  lemma ScanReport(build: Build, o: Oracle)
    ensures |Responders(build, o)| <= 4
    ensures StrictlyAscending(Responders(build, o))
    ensures forall a :: a in Responders(build, o) <==> SCAN_FIRST <= a <= SCAN_LAST && Acks(build, o, a)
  {
    FilterLength(build, o, SCAN_RANGE);
    FilterMembers(build, o, SCAN_RANGE);
    FilterAscending(build, o, SCAN_RANGE);
    assert forall a :: a in SCAN_RANGE <==> SCAN_FIRST <= a <= SCAN_LAST;
  }

  /** With devices answering only at 0x21 and 0x23, the scan reports exactly [0x21, 0x23]. */
  lemma ScanTwoDevices(build: Build, o: Oracle)
    requires forall a :: Acks(build, o, a) <==> a == 0x21 || a == 0x23
    ensures Responders(build, o) == [0x21, 0x23]
  {
    assert SCAN_RANGE[..3][..2][..1] == [0x20];
    assert Filter(build, o, [0x20]) == [];
    assert SCAN_RANGE[..3][..2] == [0x20, 0x21];
    assert Filter(build, o, [0x20, 0x21]) == [0x21];
    assert SCAN_RANGE[..3] == [0x20, 0x21, 0x22];
    assert Filter(build, o, [0x20, 0x21, 0x22]) == [0x21];
  }

  // ---------------------------------------------------------------------------
  // Firmware version (get_firmware_version)

  /** Result of reading several registers in turn: the result code, the bytes read, the bus calls. */
  datatype Reads = Reads(result: EspErr, values: seq<Byte>, txns: seq<Txn>)

  /** Reads `regs` one after the other and stops at the first failure. */
  function ReadSeq(build: Build, port: int, o: Oracle, addr: Byte, regs: seq<Byte>): Reads
    decreases |regs|
  {
    if regs == [] then Reads(ESP_OK, [], [])
    else
      var first := ReadTxns(build, port, o, addr, regs[0]);
      match ReadOutcome(build, o, addr, regs[0])
      case ReadErr(e) => Reads(e, [], first)
      case ReadOk(v) =>
        var rest := ReadSeq(build, port, o, addr, regs[1..]);
        Reads(rest.result, [v] + rest.values, first + rest.txns)
  }

  /** The bus calls of reading every register of `regs`. */
  function AllReadTxns(build: Build, port: int, o: Oracle, addr: Byte, regs: seq<Byte>): seq<Txn> {
    if regs == [] then [] else ReadTxns(build, port, o, addr, regs[0]) + AllReadTxns(build, port, o, addr, regs[1..])
  }

  /** How many registers a sequential read touched: the ones read, plus the one that failed. */
  function Attempted(rs: Reads): nat {
    |rs.values| + if rs.result == ESP_OK then 0 else 1
  }

  /**
   * A sequential read succeeds exactly when every register was read; each value
   * is what its register read returned; on failure the result is the error of
   * the first register that failed.
   */
  lemma {:induction false} ReadSeqStopsAtFirstFailure(build: Build, port: int, o: Oracle, addr: Byte, regs: seq<Byte>)
    ensures Attempted(ReadSeq(build, port, o, addr, regs)) <= |regs|
    ensures ReadSeq(build, port, o, addr, regs).result == ESP_OK <==> |ReadSeq(build, port, o, addr, regs).values| == |regs|
    ensures forall i :: 0 <= i < |ReadSeq(build, port, o, addr, regs).values| ==>
      ReadOutcome(build, o, addr, regs[i]) == ReadOk(ReadSeq(build, port, o, addr, regs).values[i])
    ensures var rs := ReadSeq(build, port, o, addr, regs);
      rs.result != ESP_OK ==> ReadOutcome(build, o, addr, regs[|rs.values|]) == ReadErr(rs.result)
    decreases |regs|
  {
    if regs != [] {
      match ReadOutcome(build, o, addr, regs[0])
      case ReadErr(e) =>
      case ReadOk(v) =>
        var rest := ReadSeq(build, port, o, addr, regs[1..]);
        ReadSeqStopsAtFirstFailure(build, port, o, addr, regs[1..]);
        var rs := ReadSeq(build, port, o, addr, regs);
        assert rs.values == [v] + rest.values;
        forall i | 0 <= i < |rs.values|
          ensures ReadOutcome(build, o, addr, regs[i]) == ReadOk(rs.values[i])
        {
          if i > 0 {
            assert regs[i] == regs[1..][i - 1];
          }
        }
    }
  }

  /** A sequential read issues the bus calls of exactly the registers it attempted, and no others. */
  lemma {:induction false} ReadSeqTouchesAttempted(build: Build, port: int, o: Oracle, addr: Byte, regs: seq<Byte>)
    ensures var rs := ReadSeq(build, port, o, addr, regs);
      Attempted(rs) <= |regs| && rs.txns == AllReadTxns(build, port, o, addr, regs[..Attempted(rs)])
    decreases |regs|
  {
    if regs != [] {
      match ReadOutcome(build, o, addr, regs[0])
      case ReadErr(e) =>
        assert regs[..1][1..] == [];
      case ReadOk(v) =>
        var rest := ReadSeq(build, port, o, addr, regs[1..]);
        ReadSeqTouchesAttempted(build, port, o, addr, regs[1..]);
        var rs := ReadSeq(build, port, o, addr, regs);
        assert regs[..Attempted(rs)][1..] == regs[1..][..Attempted(rest)];
    }
  }

  /** One step of a sequential read: the first register, then the rest only if it succeeded. */
  lemma ReadSeqStep(build: Build, port: int, o: Oracle, addr: Byte, regs: seq<Byte>)
    requires regs != []
    ensures var first, rest := ReadOutcome(build, o, addr, regs[0]), ReadSeq(build, port, o, addr, regs[1..]);
      ReadSeq(build, port, o, addr, regs) ==
        if first.ReadErr? then Reads(first.err, [], ReadTxns(build, port, o, addr, regs[0]))
        else Reads(rest.result, [first.value] + rest.values, ReadTxns(build, port, o, addr, regs[0]) + rest.txns)
  {
  }

  const FIRMWARE_REGS: seq<Byte> := [REG_FW_MAJOR, REG_FW_MINOR, REG_FW_PATCH]

  /** get_firmware_version past its guards: major, then minor, then patch. */
  function FirmwareRead(build: Build, port: int, o: Oracle, addr: Byte): Reads {
    ReadSeq(build, port, o, addr, FIRMWARE_REGS)
  }

  /**
   * The firmware read spelled out: major, then minor, then patch, each read
   * only when the ones before it succeeded; the result is ESP_OK or the error
   * of the first read that failed.
   */
  lemma FirmwareReadSteps(build: Build, port: int, o: Oracle, addr: Byte)
    ensures var major := ReadOutcome(build, o, addr, REG_FW_MAJOR);
      major.ReadErr? ==>
        FirmwareRead(build, port, o, addr) == Reads(major.err, [], ReadTxns(build, port, o, addr, REG_FW_MAJOR))
    ensures var major, minor := ReadOutcome(build, o, addr, REG_FW_MAJOR), ReadOutcome(build, o, addr, REG_FW_MINOR);
      major.ReadOk? && minor.ReadErr? ==>
        FirmwareRead(build, port, o, addr) == Reads(minor.err, [major.value],
          ReadTxns(build, port, o, addr, REG_FW_MAJOR) + ReadTxns(build, port, o, addr, REG_FW_MINOR))
    ensures var major, minor, patch :=
        ReadOutcome(build, o, addr, REG_FW_MAJOR), ReadOutcome(build, o, addr, REG_FW_MINOR), ReadOutcome(build, o, addr, REG_FW_PATCH);
      major.ReadOk? && minor.ReadOk? ==>
        FirmwareRead(build, port, o, addr) == Reads(Code(patch), [major.value, minor.value] + (if patch.ReadOk? then [patch.value] else []),
          ReadTxns(build, port, o, addr, REG_FW_MAJOR) + ReadTxns(build, port, o, addr, REG_FW_MINOR) + ReadTxns(build, port, o, addr, REG_FW_PATCH))
  {
    assert FIRMWARE_REGS[1..] == [REG_FW_MINOR, REG_FW_PATCH];
    assert [REG_FW_MINOR, REG_FW_PATCH][1..] == [REG_FW_PATCH];
    assert [REG_FW_PATCH][1..] == [];
    var major, minor, patch :=
      ReadOutcome(build, o, addr, REG_FW_MAJOR), ReadOutcome(build, o, addr, REG_FW_MINOR), ReadOutcome(build, o, addr, REG_FW_PATCH);
    var txMajor, txMinor, txPatch :=
      ReadTxns(build, port, o, addr, REG_FW_MAJOR), ReadTxns(build, port, o, addr, REG_FW_MINOR), ReadTxns(build, port, o, addr, REG_FW_PATCH);
    var afterMinor := ReadSeq(build, port, o, addr, [REG_FW_PATCH]);
    var afterMajor := ReadSeq(build, port, o, addr, [REG_FW_MINOR, REG_FW_PATCH]);
    var fw := FirmwareRead(build, port, o, addr);
    ReadSeqStep(build, port, o, addr, [REG_FW_PATCH]);
    ReadSeqStep(build, port, o, addr, [REG_FW_MINOR, REG_FW_PATCH]);
    ReadSeqStep(build, port, o, addr, FIRMWARE_REGS);
    if major.ReadOk? && minor.ReadOk? {
      assert txMajor + (txMinor + txPatch) == txMajor + txMinor + txPatch;
      if patch.ReadOk? {
        assert [major.value] + ([minor.value] + [patch.value]) == [major.value, minor.value] + [patch.value];
        assert txPatch + [] == txPatch;
      } else {
        assert [major.value] + ([minor.value] + []) == [major.value, minor.value] + [];
      }
    }
  }

  /** The value an out-pointer holds after a sequential read that wrote `values[i]` if it got that far. */
  function Written(prior: Byte, values: seq<Byte>, i: nat): Byte {
    if i < |values| then values[i] else prior
  }

  // ---------------------------------------------------------------------------
  // Device info (get_device_info)

  datatype InfoRead = InfoRead(result: EspErr, info: DeviceInfo, txns: seq<Txn>)

  /** get_device_info past its guards, filling the record that held `prior`. */
  function InfoOutcome(build: Build, port: int, o: Oracle, addr: Byte, prior: DeviceInfo): InfoRead {
    var probe := [WriteTxn(build, port, addr, Frame(Ping))];
    if !Acks(build, o, addr) then
      InfoRead(ESP_OK, DeviceInfo(addr, 0, 0, 0, false), probe)
    else
      var fw := FirmwareRead(build, port, o, addr);
      var info := DeviceInfo(addr, Written(prior.fwMajor, fw.values, 0), Written(prior.fwMinor, fw.values, 1),
                             Written(prior.fwPatch, fw.values, 2), fw.result == ESP_OK);
      InfoRead(fw.result, info, probe + fw.txns)
  }

  /**
   * The three paths of get_device_info: an absent device gives a zeroed,
   * disconnected record and ESP_OK after one probe; a present device whose
   * firmware read fails ends disconnected with that read's error and keeps the
   * prior contents of every version field not read; otherwise the record is
   * connected and holds the version read, and the result is ESP_OK.
   */
  lemma DeviceInfoPaths(build: Build, port: int, o: Oracle, addr: Byte, prior: DeviceInfo)
    ensures InfoOutcome(build, port, o, addr, prior).info.address == addr
    ensures !Acks(build, o, addr) ==>
      InfoOutcome(build, port, o, addr, prior) == InfoRead(ESP_OK, DeviceInfo(addr, 0, 0, 0, false), [WriteTxn(build, port, addr, [])])
    ensures var out, fw := InfoOutcome(build, port, o, addr, prior), FirmwareRead(build, port, o, addr);
      Acks(build, o, addr) && fw.result != ESP_OK ==>
        out.result == fw.result && !out.info.connected && out.info.fwPatch == prior.fwPatch
        && (|fw.values| < 2 ==> out.info.fwMinor == prior.fwMinor)
        && (|fw.values| < 1 ==> out.info.fwMajor == prior.fwMajor)
        && |fw.values| < |FIRMWARE_REGS| && ReadOutcome(build, o, addr, FIRMWARE_REGS[|fw.values|]) == ReadErr(out.result)
    ensures var out, fw := InfoOutcome(build, port, o, addr, prior), FirmwareRead(build, port, o, addr);
      out.info.connected <==> Acks(build, o, addr) && fw.result == ESP_OK
    ensures var out := InfoOutcome(build, port, o, addr, prior);
      out.info.connected ==>
        out.result == ESP_OK
        && ReadOutcome(build, o, addr, REG_FW_MAJOR) == ReadOk(out.info.fwMajor)
        && ReadOutcome(build, o, addr, REG_FW_MINOR) == ReadOk(out.info.fwMinor)
        && ReadOutcome(build, o, addr, REG_FW_PATCH) == ReadOk(out.info.fwPatch)
    ensures var out := InfoOutcome(build, port, o, addr, prior);
      out.result != ESP_OK ==> !out.info.connected
  {
    ReadSeqStopsAtFirstFailure(build, port, o, addr, FIRMWARE_REGS);
  }

  /** A present device whose major-version read fails: connected false, the error returned, the version untouched. */
  lemma DeviceInfoMajorFailure(build: Build, port: int, o: Oracle, addr: Byte, prior: DeviceInfo)
    requires Acks(build, o, addr) && ReadOutcome(build, o, addr, REG_FW_MAJOR).ReadErr?
    ensures InfoOutcome(build, port, o, addr, prior).result == ReadOutcome(build, o, addr, REG_FW_MAJOR).err
    ensures InfoOutcome(build, port, o, addr, prior).info == prior.(address := addr, connected := false)
  {
  }

  // ---------------------------------------------------------------------------
  // Session (init, deinit)

  /** Result, new session and bus calls of one session operation. */
  datatype Step = Step(result: EspErr, session: Session, txns: seq<Txn>)

  /** burstfire_init */
  function InitOutcome(build: Build, o: Oracle, config: Pointer<Config>, s: Session): Step {
    match config
    case Null => Step(ESP_ERR_INVALID_ARG, s, [])
    case To(c) =>
      if build == ArduinoCpp then
        Step(ESP_OK, Session(true, c.port, c.sdaPin, c.sclPin), [WireBegin(c.sdaPin, c.sclPin), WireSetClock(c.clkSpeed)])
      else if o.paramConfig(c) != ESP_OK then
        Step(o.paramConfig(c), s, [I2cParamConfig(c)])
      else if o.driverInstall(c.port) != ESP_OK then
        Step(o.driverInstall(c.port), s, [I2cParamConfig(c), I2cDriverInstall(c.port)])
      else
        Step(ESP_OK, s.(initialized := true, port := c.port), [I2cParamConfig(c), I2cDriverInstall(c.port)])
  }

  /** burstfire_deinit */
  function DeinitOutcome(build: Build, o: Oracle, s: Session): Step {
    if !s.initialized then Step(ESP_ERR_INVALID_STATE, s, [])
    else
      match build
      case IdfC =>
        Step(o.driverDelete(s.port), s.(initialized := false), [I2cDriverDelete(s.port)])
      case IdfCpp =>
        if o.driverDelete(s.port) != ESP_OK then Step(o.driverDelete(s.port), s, [I2cDriverDelete(s.port)])
        else Step(ESP_OK, s.(initialized := false), [I2cDriverDelete(s.port)])
      case ArduinoCpp =>
        Step(ESP_OK, s.(initialized := false), [])
  }

  /**
   * init fails only for a NULL config or a failing ESP-IDF configuration call,
   * and a failed init leaves the session as it was; a successful one opens the
   * session on the configured port. The Arduino build cannot fail on a config.
   */
  lemma InitEffect(build: Build, o: Oracle, config: Pointer<Config>, s: Session)
    ensures InitOutcome(build, o, config, s).result != ESP_OK ==> InitOutcome(build, o, config, s).session == s
    ensures InitOutcome(build, o, config, s).result == ESP_OK <==>
      config.To? && (build == ArduinoCpp || (o.paramConfig(config.pointee) == ESP_OK && o.driverInstall(config.pointee.port) == ESP_OK))
    ensures var st := InitOutcome(build, o, config, s);
      st.result == ESP_OK ==> st.session.initialized && st.session.port == config.pointee.port
    ensures config.Null? ==> InitOutcome(build, o, config, s) == Step(ESP_ERR_INVALID_ARG, s, [])
    ensures config.To? && build != ArduinoCpp && o.paramConfig(config.pointee) != ESP_OK ==>
      InitOutcome(build, o, config, s) == Step(o.paramConfig(config.pointee), s, [I2cParamConfig(config.pointee)])
    ensures config.To? && build != ArduinoCpp && o.paramConfig(config.pointee) == ESP_OK && o.driverInstall(config.pointee.port) != ESP_OK ==>
      InitOutcome(build, o, config, s) ==
        Step(o.driverInstall(config.pointee.port), s, [I2cParamConfig(config.pointee), I2cDriverInstall(config.pointee.port)])
    ensures config.To? && build == ArduinoCpp ==>
      InitOutcome(build, o, config, s).session == Session(true, config.pointee.port, config.pointee.sdaPin, config.pointee.sclPin)
    ensures config.To? && build != ArduinoCpp && InitOutcome(build, o, config, s).result == ESP_OK ==>
      InitOutcome(build, o, config, s).session == s.(initialized := true, port := config.pointee.port)
  {
  }

  /**
   * Deinit of an open session: the C build always closes it and returns what
   * i2c_driver_delete returned; the C++ ESP-IDF build closes it only when that
   * call succeeds; the Arduino build always closes it and returns ESP_OK. A
   * deinit of a closed session is refused with ESP_ERR_INVALID_STATE, so a
   * second deinit is refused unless the first one failed in the C++ ESP-IDF
   * build, in which case the second one tries i2c_driver_delete again.
   */
  lemma DeinitTwice(build: Build, o: Oracle, s: Session)
    requires s.initialized
    ensures var first := DeinitOutcome(build, o, s);
      !first.session.initialized <==> build != IdfCpp || o.driverDelete(s.port) == ESP_OK
    ensures var first := DeinitOutcome(build, o, s);
      build != ArduinoCpp ==> first.result == o.driverDelete(s.port)
    ensures var first := DeinitOutcome(build, o, s);
      build == ArduinoCpp ==> first.result == ESP_OK && first.txns == []
    ensures var first := DeinitOutcome(build, o, s);
      var second := DeinitOutcome(build, o, first.session);
      !first.session.initialized ==> second == Step(ESP_ERR_INVALID_STATE, first.session, [])
    ensures var first := DeinitOutcome(build, o, s);
      var second := DeinitOutcome(build, o, first.session);
      first.session.initialized ==> first.result != ESP_OK && second.txns == [I2cDriverDelete(s.port)]
  {
  }

  /** When i2c_driver_delete fails, the C build has closed the session and the C++ ESP-IDF build has not. */
  lemma DeinitBuildsDiffer(o: Oracle, s: Session)
    requires s.initialized && o.driverDelete(s.port) != ESP_OK
    ensures DeinitOutcome(IdfC, o, s).result == DeinitOutcome(IdfCpp, o, s).result
    ensures !DeinitOutcome(IdfC, o, s).session.initialized
    ensures DeinitOutcome(IdfCpp, o, s).session == s
  {
  }
}
