/**
 * The vendor bus libraries the driver calls into, as an abstract transport.
 *
 * The driver is built either against ESP-IDF's legacy I2C driver
 * (i2c_param_config, i2c_driver_install, i2c_driver_delete,
 * i2c_master_write_to_device, i2c_master_write_read_device) or against the
 * Arduino Wire object (begin, setClock, beginTransmission/write/endTransmission,
 * requestFrom, available, read). Their code is not part of this model: every
 * result comes from an Oracle fixed when the bus is created, and every call that
 * reaches the bus is appended to a ghost log, so that the driver's contracts can
 * say exactly which transactions it issues, in which order, with which bytes.
 */
module Transport {
  import opened BurstFireApi

  /** Result of a write-then-read of one byte: the byte, or the failure the library reports. */
  datatype ReadResult = ReadOk(value: Byte) | ReadErr(err: Fault)

  /** One call that reaches the bus library. */
  datatype Txn =
    | I2cParamConfig(config: Config)
    | I2cDriverInstall(port: int)
    | I2cDriverDelete(port: int)
    | I2cWrite(port: int, addr: Byte, data: seq<Byte>)
    | I2cWriteRead(port: int, addr: Byte, data: seq<Byte>, readLen: nat)
    | WireBegin(sdaPin: int, sclPin: int)
    | WireSetClock(hz: bv32)
    | WireTransmission(addr: Byte, data: seq<Byte>)
    | WireRequest(addr: Byte, quantity: Byte)

  /**
   * What the libraries and the devices on the bus answer. For the Arduino
   * library, requestFrom is answered from the command last acknowledged by that
   * address (the remote register pointer) and yields both the count requestFrom
   * returns and the bytes left in the receive buffer.
   */
  datatype Oracle = Oracle(
    paramConfig: Config -> EspErr,
    driverInstall: int -> EspErr,
    driverDelete: int -> EspErr,
    write: (Byte, seq<Byte>) -> EspErr,
    writeRead: (Byte, seq<Byte>) -> ReadResult,
    endTransmission: (Byte, seq<Byte>) -> Byte,
    requestFrom: (Byte, seq<Byte>, Byte) -> (Byte, seq<Byte>))

  class Bus {
    const oracle: Oracle
    /** Every call that reached the bus, oldest first. */
    ghost var log: seq<Txn>
    /** Arduino: the last acknowledged transmission to each address (keyed by the address as a number). */
    var selected: map<int, seq<Byte>>
    /** Arduino: the Wire receive buffer. */
    var rx: seq<Byte>

    constructor (oracle: Oracle)
      ensures this.oracle == oracle && log == [] && selected == map[] && rx == []
    {
      this.oracle := oracle;
      log := [];
      selected := map[];
      rx := [];
    }

    /** Arduino: the command the device at `addr` last acknowledged. */
    function Selected(addr: Byte): seq<Byte>
      reads this`selected
    {
      if addr as int in selected then selected[addr as int] else []
    }

    // ESP-IDF

    method ParamConfig(config: Config) returns (r: EspErr)
      modifies this`log
      ensures r == oracle.paramConfig(config)
      ensures log == old(log) + [I2cParamConfig(config)]
    {
      r := oracle.paramConfig(config);
      log := log + [I2cParamConfig(config)];
    }

    method DriverInstall(port: int) returns (r: EspErr)
      modifies this`log
      ensures r == oracle.driverInstall(port)
      ensures log == old(log) + [I2cDriverInstall(port)]
    {
      r := oracle.driverInstall(port);
      log := log + [I2cDriverInstall(port)];
    }

    method DriverDelete(port: int) returns (r: EspErr)
      modifies this`log
      ensures r == oracle.driverDelete(port)
      ensures log == old(log) + [I2cDriverDelete(port)]
    {
      r := oracle.driverDelete(port);
      log := log + [I2cDriverDelete(port)];
    }

    method WriteToDevice(port: int, addr: Byte, data: seq<Byte>) returns (r: EspErr)
      modifies this`log
      ensures r == oracle.write(addr, data)
      ensures log == old(log) + [I2cWrite(port, addr, data)]
    {
      r := oracle.write(addr, data);
      log := log + [I2cWrite(port, addr, data)];
    }

    /** Sends `data`, then reads one byte into the buffer `buf`, which is written only on success. */
    method WriteReadDevice(port: int, addr: Byte, data: seq<Byte>, buf: Byte) returns (r: EspErr, buf': Byte)
      modifies this`log
      ensures r == (if oracle.writeRead(addr, data).ReadOk? then ESP_OK else oracle.writeRead(addr, data).err)
      ensures buf' == (if oracle.writeRead(addr, data).ReadOk? then oracle.writeRead(addr, data).value else buf)
      ensures log == old(log) + [I2cWriteRead(port, addr, data, 1)]
    {
      log := log + [I2cWriteRead(port, addr, data, 1)];
      match oracle.writeRead(addr, data)
      case ReadOk(v) =>
        r, buf' := ESP_OK, v;
      case ReadErr(e) =>
        r, buf' := e, buf;
    }

    // Arduino Wire

    method Begin(sdaPin: int, sclPin: int)
      modifies this`log
      ensures log == old(log) + [WireBegin(sdaPin, sclPin)]
    {
      log := log + [WireBegin(sdaPin, sclPin)];
    }

    method SetClock(hz: bv32)
      modifies this`log
      ensures log == old(log) + [WireSetClock(hz)]
    {
      log := log + [WireSetClock(hz)];
    }

    /** beginTransmission(addr), write of each byte of `data`, endTransmission(): 0 means acknowledged. */
    method Transmit(addr: Byte, data: seq<Byte>) returns (code: Byte)
      modifies this`log, this`selected
      ensures code == oracle.endTransmission(addr, data)
      ensures log == old(log) + [WireTransmission(addr, data)]
      ensures selected == if code == 0 then old(selected)[addr as int := data] else old(selected)
    {
      code := oracle.endTransmission(addr, data);
      log := log + [WireTransmission(addr, data)];
      if code == 0 {
        selected := selected[addr as int := data];
      }
    }

    method RequestFrom(addr: Byte, quantity: Byte) returns (received: Byte)
      modifies this`log, this`rx
      ensures (received, rx) == oracle.requestFrom(addr, Selected(addr), quantity)
      ensures log == old(log) + [WireRequest(addr, quantity)]
    {
      var answer := oracle.requestFrom(addr, Selected(addr), quantity);
      received, rx := answer.0, answer.1;
      log := log + [WireRequest(addr, quantity)];
    }

    method Available() returns (n: int)
      ensures n == |rx|
    {
      n := |rx|;
    }

    /** The next buffered byte, or -1 when the buffer is empty. */
    method Read() returns (b: int)
      modifies this`rx
      ensures old(rx) == [] ==> b == -1 && rx == []
      ensures old(rx) != [] ==> b == old(rx)[0] as int && rx == old(rx)[1..]
    {
      if rx == [] {
        b := -1;
      } else {
        b := rx[0] as int;
        rx := rx[1..];
      }
    }
  }
}
