/**
 * The BurstFire driver facade (burstfire_i2c_driver.c and burstfire_i2c_driver.cpp).
 *
 * The driver's static globals (g_initialized, g_port and, in the Arduino build,
 * g_sda_pin and g_scl_pin) are the fields of a BurstFire object; the bus library
 * it calls is the Bus it was created with; `build` selects which of the three
 * compiled behaviours the object has. Pointer arguments are passed as the
 * object they point to (or Null) and the method returns what that object holds
 * on return, so a contract can say which outputs are written on each path.
 */
module Driver {
  import opened BurstFireApi
  import opened Transport
  import opened Protocol

  class BurstFire {
    const build: Build
    const bus: Bus
    var initialized: bool
    var port: int
    var sdaPin: int
    var sclPin: int

    /** The state before any call: static storage starts zeroed. */
    constructor (build: Build, bus: Bus)
      ensures this.build == build && this.bus == bus
      ensures State() == Protocol.Session(false, 0, 0, 0)
    {
      this.build := build;
      this.bus := bus;
      initialized := false;
      port, sdaPin, sclPin := 0, 0, 0;
    }

    function State(): Session
      reads this
    {
      Protocol.Session(initialized, port, sdaPin, sclPin)
    }

    // Internal helpers

    /** write_reg: one transmission of the two bytes [reg, val]. */
    method WriteReg(addr: Byte, reg: Byte, val: Byte) returns (r: EspErr)
      modifies bus
      ensures r == WriteOutcome(build, bus.oracle, addr, [reg, val])
      ensures bus.log == old(bus.log) + [WriteTxn(build, port, addr, [reg, val])]
    {
      if build == ArduinoCpp {
        var code := bus.Transmit(addr, Frame(SetRegister(reg, val)));
        r := if code == 0 then ESP_OK else ESP_FAIL;
      } else {
        r := bus.WriteToDevice(port, addr, Frame(SetRegister(reg, val)));
      }
    }

    /**
     * read_reg: sends the single byte 0x80 | reg and reads one byte back;
     * `val` is the byte *val held before, and is replaced only on success.
     */
    method ReadReg(addr: Byte, reg: Byte, val: Byte) returns (r: EspErr, val': Byte)
      modifies bus
      ensures r == Code(ReadOutcome(build, bus.oracle, addr, reg))
      ensures val' == if r == ESP_OK then ReadOutcome(build, bus.oracle, addr, reg).value else val
      ensures bus.log == old(bus.log) + ReadTxns(build, port, bus.oracle, addr, reg)
    {
      var cmd := Frame(GetRegister(reg));
      if build == ArduinoCpp {
        var code := bus.Transmit(addr, cmd);
        if code != 0 {
          return ESP_FAIL, val;
        }
        assert bus.Selected(addr) == cmd;
        var received := bus.RequestFrom(addr, 1);
        ghost var answer := bus.oracle.requestFrom(addr, cmd, 1);
        assert received == answer.0 && bus.rx == answer.1;
        if received != 1 {
          return ESP_FAIL, val;
        }
        var available := bus.Available();
        if available > 0 {
          var b := bus.Read();
          ToByteOfByte(answer.1[0]);
          return ESP_OK, ToByte(b);
        }
        return ESP_FAIL, val;
      } else {
        r, val' := bus.WriteReadDevice(port, addr, cmd, val);
      }
    }

    // Session

    /** burstfire_init */
    method Init(config: Pointer<Config>) returns (r: EspErr)
      modifies this, bus
      ensures r == InitOutcome(build, bus.oracle, config, old(State())).result
      ensures State() == InitOutcome(build, bus.oracle, config, old(State())).session
      ensures bus.log == old(bus.log) + InitOutcome(build, bus.oracle, config, old(State())).txns
    {
      if config.Null? {
        return ESP_ERR_INVALID_ARG;
      }
      var c := config.pointee;
      if build == ArduinoCpp {
        bus.Begin(c.sdaPin, c.sclPin);
        bus.SetClock(c.clkSpeed);
        sdaPin := c.sdaPin;
        sclPin := c.sclPin;
        port := c.port;
        initialized := true;
      } else {
        var ret := bus.ParamConfig(c);
        if ret != ESP_OK {
          return ret;
        }
        ret := bus.DriverInstall(c.port);
        if ret != ESP_OK {
          return ret;
        }
        port := c.port;
        initialized := true;
      }
      return ESP_OK;
    }

    /** burstfire_deinit */
    method Deinit() returns (r: EspErr)
      modifies this, bus
      ensures r == DeinitOutcome(build, bus.oracle, old(State())).result
      ensures State() == DeinitOutcome(build, bus.oracle, old(State())).session
      ensures bus.log == old(bus.log) + DeinitOutcome(build, bus.oracle, old(State())).txns
    {
      if !initialized {
        return ESP_ERR_INVALID_STATE;
      }
      match build
      case ArduinoCpp =>
        initialized := false;
        r := ESP_OK;
      case IdfCpp =>
        var ret := bus.DriverDelete(port);
        if ret != ESP_OK {
          return ret;
        }
        initialized := false;
        r := ESP_OK;
      case IdfC =>
        r := bus.DriverDelete(port);
        initialized := false;
    }

    // Device control

    /** burstfire_set_duty */
    method SetDuty(addr: Byte, duty: Byte) returns (r: EspErr)
      modifies bus
      ensures !initialized ==> r == ESP_ERR_INVALID_STATE && unchanged(bus)
      ensures initialized && !DutyInRange(duty) ==> r == ESP_ERR_INVALID_ARG && unchanged(bus)
      ensures initialized && DutyInRange(duty) ==>
        r == WriteOutcome(build, bus.oracle, addr, [REG_DUTY, duty])
        && bus.log == old(bus.log) + [WriteTxn(build, port, addr, [REG_DUTY, duty])]
    {
      if !initialized {
        return ESP_ERR_INVALID_STATE;
      }
      if duty > 10 {
        return ESP_ERR_INVALID_ARG;
      }
      r := WriteReg(addr, REG_DUTY, duty);
    }

    /** burstfire_get_duty */
    method GetDuty(addr: Byte, duty: Pointer<Byte>) returns (r: EspErr, duty': Pointer<Byte>)
      modifies bus
      ensures !initialized ==> r == ESP_ERR_INVALID_STATE && duty' == duty && unchanged(bus)
      ensures initialized && duty.Null? ==> r == ESP_ERR_INVALID_ARG && duty' == duty && unchanged(bus)
      ensures initialized && duty.To? ==>
        var res := ReadOutcome(build, bus.oracle, addr, REG_DUTY);
        r == Code(res) && duty' == (if res.ReadOk? then To(res.value) else duty)
        && bus.log == old(bus.log) + ReadTxns(build, port, bus.oracle, addr, REG_DUTY)
    {
      if !initialized {
        return ESP_ERR_INVALID_STATE, duty;
      }
      if duty.Null? {
        return ESP_ERR_INVALID_ARG, duty;
      }
      var v;
      r, v := ReadReg(addr, REG_DUTY, duty.pointee);
      duty' := To(v);
    }

    /** burstfire_set_grid_60hz */
    method SetGrid60Hz(addr: Byte, is60Hz: bool) returns (r: EspErr)
      modifies bus
      ensures !initialized ==> r == ESP_ERR_INVALID_STATE && unchanged(bus)
      ensures initialized ==>
        var frame := [REG_GRID_HZ, if is60Hz then GRID_60HZ else GRID_50HZ];
        r == WriteOutcome(build, bus.oracle, addr, frame)
        && bus.log == old(bus.log) + [WriteTxn(build, port, addr, frame)]
    {
      if !initialized {
        return ESP_ERR_INVALID_STATE;
      }
      r := WriteReg(addr, REG_GRID_HZ, GridValue(is60Hz));
    }

    /** burstfire_get_status */
    method GetStatus(addr: Byte, status: Pointer<Byte>) returns (r: EspErr, status': Pointer<Byte>)
      modifies bus
      ensures !initialized ==> r == ESP_ERR_INVALID_STATE && status' == status && unchanged(bus)
      ensures initialized && status.Null? ==> r == ESP_ERR_INVALID_ARG && status' == status && unchanged(bus)
      ensures initialized && status.To? ==>
        var res := ReadOutcome(build, bus.oracle, addr, REG_STATUS);
        r == Code(res) && status' == (if res.ReadOk? then To(res.value) else status)
        && bus.log == old(bus.log) + ReadTxns(build, port, bus.oracle, addr, REG_STATUS)
    {
      if !initialized {
        return ESP_ERR_INVALID_STATE, status;
      }
      if status.Null? {
        return ESP_ERR_INVALID_ARG, status;
      }
      var v;
      r, v := ReadReg(addr, REG_STATUS, status.pointee);
      status' := To(v);
    }

    /** burstfire_is_connected: a zero-length write; true exactly when it is acknowledged. */
    method IsConnected(addr: Byte) returns (present: bool)
      modifies bus
      ensures !initialized ==> !present && unchanged(bus)
      ensures initialized ==>
        (present <==> Acks(build, bus.oracle, addr))
        && bus.log == old(bus.log) + [WriteTxn(build, port, addr, [])]
    {
      if !initialized {
        return false;
      }
      if build == ArduinoCpp {
        var code := bus.Transmit(addr, Frame(Ping));
        present := code == 0;
      } else {
        var ret := bus.WriteToDevice(port, addr, Frame(Ping));
        present := ret == ESP_OK;
      }
    }

    // Device discovery and info

    /**
     * burstfire_scan_devices: probes 0x20, 0x21, 0x22, 0x23 in that order and
     * stores each address that answers at addresses[*count]. Once both guards
     * pass, the caller's array must have room for every device that answers.
     */
    method ScanDevices(addresses: array?<Byte>, count: Pointer<Byte>) returns (r: EspErr, count': Pointer<Byte>)
      requires initialized && addresses != null && count.To? ==> |Responders(build, bus.oracle)| <= addresses.Length
      modifies bus, addresses
      ensures !initialized ==>
        r == ESP_ERR_INVALID_STATE && count' == count && unchanged(bus) && (addresses != null ==> unchanged(addresses))
      ensures initialized && (addresses == null || count.Null?) ==>
        r == ESP_ERR_INVALID_ARG && count' == count && unchanged(bus) && (addresses != null ==> unchanged(addresses))
      ensures initialized && addresses != null && count.To? ==>
        var found := Responders(build, bus.oracle);
        r == ESP_OK && count'.To? && count'.pointee as int == |found|
        && addresses[..|found|] == found
        && addresses[|found|..] == old(addresses[|found|..])
        && bus.log == old(bus.log) + Probes(build, port, SCAN_RANGE)
    {
      if !initialized {
        return ESP_ERR_INVALID_STATE, count;
      }
      if addresses == null || count.Null? {
        return ESP_ERR_INVALID_ARG, count;
      }
      var n := Sweep(addresses);
      return ESP_OK, To(n);
    }

    /**
     * The loop of burstfire_scan_devices: for addr from 0x20 while addr <= 0x23,
     * a responding address is stored at addresses[*count] and *count incremented.
     */
    method Sweep(addresses: array<Byte>) returns (n: Byte)
      requires initialized && |Responders(build, bus.oracle)| <= addresses.Length
      modifies bus, addresses
      ensures n as int == |Responders(build, bus.oracle)|
      ensures addresses[..n] == Responders(build, bus.oracle)
      ensures addresses[n..] == old(addresses[n..])
      ensures bus.log == old(bus.log) + Probes(build, port, SCAN_RANGE)
    {
      ghost var orig := addresses[..];
      ghost var k := 0;
      n := 0;
      var addr: Byte := 0x20;
      while addr <= 0x23
        invariant 0 <= k <= 4 && addr == if k < 4 then SCAN_RANGE[k] else 0x24
        invariant Swept(addresses[..], orig, n, Filter(build, bus.oracle, SCAN_RANGE[..k]), k)
        invariant bus.log == old(bus.log) + Probes(build, port, SCAN_RANGE[..k])
      {
        ScanAddressStep(k);
        ProbesStep(build, port, SCAN_RANGE, k);
        n := SweepStep(addresses, n, addr, k, orig);
        addr := addr + 1;
        k := k + 1;
      }
      assert SCAN_RANGE[..4] == SCAN_RANGE;
    }

    /** One pass of the sweep loop: probe `addr` and, when it answers, store it at addresses[n] and count it. */
    method SweepStep(addresses: array<Byte>, n: Byte, addr: Byte, ghost k: nat, ghost orig: seq<Byte>) returns (n': Byte)
      requires initialized && k < |SCAN_RANGE| && addr == SCAN_RANGE[k]
      requires |Responders(build, bus.oracle)| <= addresses.Length == |orig|
      requires Swept(addresses[..], orig, n, Filter(build, bus.oracle, SCAN_RANGE[..k]), k)
      modifies bus, addresses
      ensures Swept(addresses[..], orig, n', Filter(build, bus.oracle, SCAN_RANGE[..k + 1]), k + 1)
      ensures bus.log == old(bus.log) + [WriteTxn(build, port, addr, [])]
    {
      FilterStep(build, bus.oracle, SCAN_RANGE, k);
      ghost var found := Filter(build, bus.oracle, SCAN_RANGE[..k]);
      var present := IsConnected(addr);
      n' := n;
      if present {
        FilterPrefixLength(build, bus.oracle, SCAN_RANGE, k + 1);
        ghost var before := addresses[..];
        addresses[n] := addr;
        StoreNext(before, addresses[..], found, orig, n as int, addr);
        n' := n + 1;
      }
    }

    /**
     * burstfire_get_firmware_version: reads major, minor and patch in turn and
     * returns the first failure; an output is written only when its own read
     * succeeded, so the outputs after a failing read keep their contents.
     */
    method GetFirmwareVersion(addr: Byte, major: Pointer<Byte>, minor: Pointer<Byte>, patch: Pointer<Byte>)
      returns (r: EspErr, major': Pointer<Byte>, minor': Pointer<Byte>, patch': Pointer<Byte>)
      modifies bus
      ensures !initialized ==>
        r == ESP_ERR_INVALID_STATE && (major', minor', patch') == (major, minor, patch) && unchanged(bus)
      ensures initialized && (major.Null? || minor.Null? || patch.Null?) ==>
        r == ESP_ERR_INVALID_ARG && (major', minor', patch') == (major, minor, patch) && unchanged(bus)
      ensures initialized && major.To? && minor.To? && patch.To? ==>
        var fw := FirmwareRead(build, port, bus.oracle, addr);
        r == fw.result
        && major' == To(Written(major.pointee, fw.values, 0))
        && minor' == To(Written(minor.pointee, fw.values, 1))
        && patch' == To(Written(patch.pointee, fw.values, 2))
        && bus.log == old(bus.log) + fw.txns
    {
      if !initialized {
        return ESP_ERR_INVALID_STATE, major, minor, patch;
      }
      if major.Null? || minor.Null? || patch.Null? {
        return ESP_ERR_INVALID_ARG, major, minor, patch;
      }
      var ma, mi, pa;
      r, ma, mi, pa := ReadVersion(addr, major.pointee, minor.pointee, patch.pointee);
      return r, To(ma), To(mi), To(pa);
    }

    /** The three reads of burstfire_get_firmware_version, stopping at the first failure. */
    method ReadVersion(addr: Byte, major: Byte, minor: Byte, patch: Byte)
      returns (r: EspErr, major': Byte, minor': Byte, patch': Byte)
      modifies bus
      ensures var fw := FirmwareRead(build, port, bus.oracle, addr);
        r == fw.result
        && major' == Written(major, fw.values, 0)
        && minor' == Written(minor, fw.values, 1)
        && patch' == Written(patch, fw.values, 2)
        && bus.log == old(bus.log) + fw.txns
    {
      FirmwareReadSteps(build, port, bus.oracle, addr);
      ghost var fw := FirmwareRead(build, port, bus.oracle, addr);
      minor', patch' := minor, patch;
      r, major' := ReadReg(addr, REG_FW_MAJOR, major);
      if r != ESP_OK {
        assert fw.values == [];
        return;
      }
      r, minor' := ReadReg(addr, REG_FW_MINOR, minor);
      if r != ESP_OK {
        assert fw.values == [major'];
        return;
      }
      r, patch' := ReadReg(addr, REG_FW_PATCH, patch);
    }

    /**
     * burstfire_get_device_info: records the address, probes the device, and
     * either reads the firmware version into the record (marking it disconnected
     * again if that read fails) or zeroes the version of an absent device.
     */
    method GetDeviceInfo(addr: Byte, info: Pointer<DeviceInfo>) returns (r: EspErr, info': Pointer<DeviceInfo>)
      modifies bus
      ensures !initialized ==> r == ESP_ERR_INVALID_STATE && info' == info && unchanged(bus)
      ensures initialized && info.Null? ==> r == ESP_ERR_INVALID_ARG && info' == info && unchanged(bus)
      ensures initialized && info.To? ==>
        var out := InfoOutcome(build, port, bus.oracle, addr, info.pointee);
        r == out.result && info' == To(out.info) && bus.log == old(bus.log) + out.txns
    {
      if !initialized {
        return ESP_ERR_INVALID_STATE, info;
      }
      if info.Null? {
        return ESP_ERR_INVALID_ARG, info;
      }
      var rec := info.pointee;
      rec := rec.(address := addr);
      var present := IsConnected(addr);
      rec := rec.(connected := present);
      if rec.connected {
        var ret, major, minor, patch := GetFirmwareVersion(addr, To(rec.fwMajor), To(rec.fwMinor), To(rec.fwPatch));
        rec := rec.(fwMajor := major.pointee, fwMinor := minor.pointee, fwPatch := patch.pointee);
        if ret != ESP_OK {
          rec := rec.(connected := false);
          return ret, To(rec);
        }
      } else {
        rec := rec.(fwMajor := 0, fwMinor := 0, fwPatch := 0);
      }
      return ESP_OK, To(rec);
    }
  }

  /**
   * The sweep's progress after probing the first k addresses: the array starts
   * with the `found` addresses, n counts them, and the rest of the array is as
   * the caller passed it.
   */
  ghost predicate Swept(a: seq<Byte>, orig: seq<Byte>, n: Byte, found: seq<Byte>, k: nat) {
    n as int == |found| <= k && |found| <= |orig| && a == found + orig[n..]
  }

  /** Storing the next found address over the untouched tail extends the found prefix. */
  lemma StoreNext(before: seq<Byte>, after: seq<Byte>, found: seq<Byte>, orig: seq<Byte>, n: nat, x: Byte)
    requires |found| == n < |orig| && before == found + orig[n..]
    requires after == before[n := x]
    ensures after == (found + [x]) + orig[n + 1..]
  {
    assert |after| == |(found + [x]) + orig[n + 1..]|;
    forall i | 0 <= i < |after|
      ensures after[i] == ((found + [x]) + orig[n + 1..])[i]
    {
    }
  }
}
