/**
 * The public vocabulary of the BurstFire driver: the ATtiny202 register map,
 * the status bits, the value domains, the configuration and device-info records
 * (burstfire_i2c_driver.h), and the few C notions the API is written in
 * (uint8_t, esp_err_t, a pointer that may be NULL).
 */
module BurstFireApi {

  /** uint8_t */
  type Byte = bv8

  /** esp_err_t: ESP_OK on success, any other value is a failure. */
  type EspErr = int

  const ESP_OK: EspErr := 0
  const ESP_FAIL: EspErr := -1
  const ESP_ERR_INVALID_ARG: EspErr := 0x102
  const ESP_ERR_INVALID_STATE: EspErr := 0x103

  /** An esp_err_t that reports a failure. */
  type Fault = e: EspErr | e != ESP_OK witness ESP_FAIL

  /** A pointer argument: NULL, or the object it points to. */
  datatype Pointer<T> = Null | To(pointee: T)

  datatype Option<T> = None | Some(value: T)

  // ATtiny202 register map
  const REG_DUTY: Byte := 0x00       // R/W: duty cycle, 0..10
  const REG_MAX_DUTY: Byte := 0x01   // R: maximum duty, always 10
  const REG_GRID_HZ: Byte := 0x02    // R/W: 0 = 50 Hz, 1 = 60 Hz
  const REG_FW_MAJOR: Byte := 0x10
  const REG_FW_MINOR: Byte := 0x11
  const REG_FW_PATCH: Byte := 0x12
  const REG_STATUS: Byte := 0x13     // R: status bits
  const REG_I2C_ADDR: Byte := 0x14   // R: the device's own bus address

  const REGISTERS: seq<Byte> :=
    [REG_DUTY, REG_MAX_DUTY, REG_GRID_HZ, REG_FW_MAJOR, REG_FW_MINOR, REG_FW_PATCH, REG_STATUS, REG_I2C_ADDR]

  // Status bits
  const STATUS_RUN: Byte := 1 << 0   // controller running
  const STATUS_GRID: Byte := 1 << 1  // grid frequency is 60 Hz

  // Value domains
  const MAX_DUTY: Byte := 10
  const GRID_50HZ: Byte := 0
  const GRID_60HZ: Byte := 1

  /** The bus addresses a controller can be strapped to; discovery covers exactly these. */
  const SCAN_FIRST: Byte := 0x20
  const SCAN_LAST: Byte := 0x23

  /** burstfire_config_t */
  datatype Config = Config(port: int, sdaPin: int, sclPin: int, clkSpeed: bv32)

  /** burstfire_device_info_t */
  datatype DeviceInfo = DeviceInfo(address: Byte, fwMajor: Byte, fwMinor: Byte, fwPatch: Byte, connected: bool)

  /** The implicit conversion of an int to uint8_t: the value modulo 256. */
  function ToByte(i: int): Byte {
    (i % 256) as Byte
  }

  /** Converting a byte's own value back to uint8_t gives the byte. */
  lemma ToByteOfByte(v: Byte)
    ensures ToByte(v as int) == v
  {
    SmallModulo(v as int);
  }

  lemma SmallModulo(i: int)
    requires 0 <= i < 256
    ensures i % 256 == i
  {
  }

  /** Duty values the driver accepts. */
  predicate DutyInRange(duty: Byte) {
    duty <= MAX_DUTY
  }

  /** The byte written to REG_GRID_HZ for the boolean flag of the API. */
  function GridValue(is60Hz: bool): (v: Byte)
    ensures v == GRID_60HZ <==> is60Hz
    ensures v == GRID_50HZ <==> !is60Hz
  {
    if is60Hz then 1 else 0
  }

  /** The eight register ids are distinct and all leave the top bit free. */
  lemma RegisterMapDistinct()
    ensures |REGISTERS| == 8
    ensures forall i, j :: 0 <= i < j < |REGISTERS| ==> REGISTERS[i] != REGISTERS[j]
    ensures forall reg :: reg in REGISTERS ==> reg < 0x80
  {
  }

  /** The two status masks are single bits and do not overlap. */
  lemma StatusBitsDisjoint()
    ensures STATUS_RUN != 0 && STATUS_RUN & (STATUS_RUN - 1) == 0
    ensures STATUS_GRID != 0 && STATUS_GRID & (STATUS_GRID - 1) == 0
    ensures STATUS_RUN & STATUS_GRID == 0
    ensures STATUS_RUN == 1 && STATUS_GRID == 2
  {
  }
}
