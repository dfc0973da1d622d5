# BurstFire I2C driver — a Dafny model

The BurstFire driver talks to ATtiny202 burst-fire power controllers over I2C.
Its public API (`burstfire_*`) covers the following:

- it opens and closes a bus session (`burstfire_init`, `burstfire_deinit`);
- it writes the duty cycle (0–10) and the grid frequency flag;
- it reads the duty cycle and the status register;
- it probes whether a controller answers;
- it sweeps the four controller addresses 0x20–0x23;
- it reads a controller's three-byte firmware version;
- it fills a device-info record, whose `connected` flag is cleared again when the firmware read fails.

Every register access is one of two frames:

- a write sends `[reg, val]`;
- a read sends the single byte `0x80 | reg` ("read-any" mode) and reads one byte back.

The presence probe is a write with no payload.

The driver exists in three compiled forms, and the model keeps all three apart with a `Build` value:

- `burstfire_i2c_driver.c`, for ESP-IDF (`IdfC`);
- `burstfire_i2c_driver.cpp` built for ESP-IDF (`IdfCpp`);
- `burstfire_i2c_driver.cpp` built for Arduino's `Wire` library (`ArduinoCpp`).

The builds differ in `deinit`, in how the Arduino build reads a register (three ways to fail, each giving
`ESP_FAIL`), and in how `init` stores the configuration.

## Layout

- `api.dfy` — module `BurstFireApi`. It holds the header's vocabulary:
  - the register map, status bits, value domains, configuration and device-info records;
  - `uint8_t` as `bv8`, and `esp_err_t` as `int` with its four codes;
  - a pointer argument as `Pointer<T> = Null | To(pointee)`.
- `transport.dfy` — module `Transport`. The vendor bus libraries (ESP-IDF's legacy I2C master calls
  and the Arduino `Wire` object) form a class `Bus`:
  - every result comes from an `Oracle` fixed when the bus is created;
  - every call is appended to a ghost `log` of transactions;
  - the Arduino receive buffer (`rx`) and the register each device last had selected (`selected`) are real fields.
- `protocol.dfy` — module `Protocol`. It holds the specification layer:
  - for each operation, a function giving its result, its new session and its bus transactions, per build;
  - the lemmas that state what the driver promises.
- `driver.dfy` — module `Driver`. The driver's static globals (`g_initialized`, `g_port`, and
  `g_sda_pin`/`g_scl_pin` in the Arduino build) are the fields of a class `BurstFire`:
  - each `burstfire_*` function and the two internal helpers `write_reg`/`read_reg` is a method, written step by step as the C code is;
  - each method is proved against the specification functions, with exact bus-log and output frames.

Pointer outputs are passed in as the value they point at (or `Null`), and the method returns the value
they hold on return. This lets every contract say which outputs a path writes and which it leaves alone.
The caller's address array in `burstfire_scan_devices` is a Dafny `array?` that the sweep fills in place.

## Model

| member | source | states |
|---|---|---|
| BurstFireApi.GridValue | burstfire_i2c_driver.h:54 | The byte written for the grid flag is GRID_60HZ (1) exactly when the flag is true and GRID_50HZ (0) exactly when it is false |
| BurstFireApi.RegisterMapDistinct | burstfire_i2c_driver.h:52-59 | The eight register ids are pairwise distinct and all below 0x80 |
| BurstFireApi.StatusBitsDisjoint | burstfire_i2c_driver.h:62-63 | STATUS_RUN and STATUS_GRID are single bits (1 and 2) that do not overlap |
| BurstFireApi.ToByteOfByte | burstfire_i2c_driver.cpp:50 | Storing the int returned by Wire.read back into a uint8_t gives the byte that was buffered |
| Protocol.ReadCommand | burstfire_i2c_driver.c:21 | The read-mode byte has its top bit set, and its low seven bits are the register's low seven bits |
| Protocol.FrameRoundTrip | burstfire_i2c_driver.c:15-90 | A write frame, a read frame of a register below 0x80, and the empty probe frame are each decoded back to the command they encode, so the three frame kinds are distinguishable |
| Protocol.ReadCommandRecoversRegister | burstfire_i2c_driver.c:21 | Over the eight registers of the map, the read byte decodes to its register and `0x80 \| reg` is injective |
| Protocol.ReadSendsCommand | burstfire_i2c_driver.cpp:41-56 | A register read sends the one byte `0x80 \| reg` to `addr`. On ESP-IDF that is one combined write-then-read of one byte. On Arduino it is a transmission, then, only if the transmission was acknowledged, a request for exactly one byte from `addr`: two calls in all, or one call when the transmission is refused |
| Protocol.ScanProbes | burstfire_i2c_driver.c:101-102 | The sweep's bus calls are exactly four zero-payload probes, of 0x20, 0x21, 0x22 and 0x23 in that order |
| Protocol.FilterLength | burstfire_i2c_driver.c:101-106 | The sweep never reports more addresses than it probes |
| Protocol.FilterMembers | burstfire_i2c_driver.c:102-103 | An address is reported exactly when it was probed and acknowledged |
| Protocol.FilterAscending | burstfire_i2c_driver.c:101-104 | Addresses probed in ascending order are reported in ascending order |
| Protocol.ScanAddressStep | burstfire_i2c_driver.c:101 | The uint8_t loop counter steps through 0x20, 0x21, 0x22, 0x23 and leaves the loop at 0x24 |
| Protocol.ScanReport | burstfire_i2c_driver.c:94-110 | The scan reports at most 4 addresses, strictly ascending, and an address is reported if and only if it lies in 0x20..0x23 and acknowledged its probe |
| Protocol.ScanTwoDevices | burstfire_i2c_driver.cpp:155-171 | With controllers answering only at 0x21 and 0x23, the scan reports exactly [0x21, 0x23] |
| Protocol.ReadSeqStopsAtFirstFailure | burstfire_i2c_driver.c:116-124 | A chain of register reads succeeds exactly when all registers were read; each value is its register's read result; on failure the result is the error of the first register that failed |
| Protocol.ReadSeqTouchesAttempted | burstfire_i2c_driver.c:116-124 | A chain of register reads issues the bus calls of the registers up to and including the first failing one, and of no register after it |
| Protocol.FirmwareReadSteps | burstfire_i2c_driver.c:112-125 | The firmware read is major, then minor, then patch, each read only when the ones before it succeeded; the result is ESP_OK or the first failing read's error, and the values and bus calls are those of the reads made |
| Protocol.DeviceInfoPaths | burstfire_i2c_driver.c:127-145 | After the guards the record's address is always `addr`. An absent device gives a zeroed, disconnected record, ESP_OK and one probe. A present device whose firmware read fails ends disconnected with that read's error, and each version field not read keeps its prior value. The record is connected if and only if the device answered and all three reads succeeded, in which case it holds the three values read |
| Protocol.DeviceInfoMajorFailure | burstfire_i2c_driver.cpp:192-200 | A present device whose major read fails returns that error; the record keeps its prior version fields and has `connected` set back to false |
| Protocol.InitEffect | burstfire_i2c_driver.cpp:61-99 | Init succeeds if and only if the config is non-NULL and, on ESP-IDF, both configuration calls succeed. A failed init leaves the session unchanged. A NULL config gives ESP_ERR_INVALID_ARG with no bus call. A failing i2c_param_config returns its own error after that one call; a failing i2c_driver_install returns its own error after both calls. A successful ESP-IDF init opens the session on the configured port; the Arduino build cannot fail on a config and stores the port and both pins |
| Protocol.DeinitTwice | burstfire_i2c_driver.cpp:101-114 | Deinit of an open session: both ESP-IDF builds return i2c_driver_delete's result, so ESP_OK exactly when the delete succeeds; the C build always closes the session; the Arduino build closes it with ESP_OK and no bus call; the C++ ESP-IDF build closes it only when the delete succeeds. A second deinit after a close is refused with ESP_ERR_INVALID_STATE and no bus call |
| Protocol.DeinitBuildsDiffer | burstfire_i2c_driver.c:52-58 | When i2c_driver_delete fails, both ESP-IDF builds return its error, but the C build has closed the session and the C++ build has left it open |
| Transport.Bus.WriteToDevice | burstfire_i2c_driver.c:17 | i2c_master_write_to_device returns the bus's answer for those bytes and is logged once |
| Transport.Bus.WriteReadDevice | burstfire_i2c_driver.c:22 | i2c_master_write_read_device returns ESP_OK and the byte read, or the failure with the buffer untouched, and is logged once |
| Transport.Bus.ParamConfig | burstfire_i2c_driver.c:38 | i2c_param_config returns the bus's answer for the configuration and is logged |
| Transport.Bus.DriverInstall | burstfire_i2c_driver.c:41 | i2c_driver_install returns the bus's answer for the port and is logged |
| Transport.Bus.DriverDelete | burstfire_i2c_driver.c:55 | i2c_driver_delete returns the bus's answer for the port and is logged |
| Transport.Bus.Begin | burstfire_i2c_driver.cpp:65 | Wire.begin with the two pins is logged |
| Transport.Bus.SetClock | burstfire_i2c_driver.cpp:66 | Wire.setClock with the configured speed is logged |
| Transport.Bus.Transmit | burstfire_i2c_driver.cpp:31-34 | One transmission's endTransmission code; an acknowledged transmission becomes the device's selected command |
| Transport.Bus.RequestFrom | burstfire_i2c_driver.cpp:48 | requestFrom answers from the device's selected command with the count it reports and the bytes it buffers |
| Transport.Bus.Available | burstfire_i2c_driver.cpp:49 | Wire.available is the number of bytes buffered |
| Transport.Bus.Read | burstfire_i2c_driver.cpp:50 | Wire.read takes the oldest buffered byte, or gives -1 when none is left |
| Driver.BurstFire.constructor | burstfire_i2c_driver.c:11-12 | The driver starts uninitialised with zeroed port and pins |
| Driver.BurstFire.WriteReg | burstfire_i2c_driver.cpp:29-39 | One write of exactly `[reg, val]` to `addr`. ESP-IDF returns the bus result unchanged; Arduino returns ESP_OK if and only if endTransmission gave 0, else ESP_FAIL |
| Driver.BurstFire.ReadReg | burstfire_i2c_driver.cpp:41-58 | The result is the read's outcome, and `*val` is replaced only on success. On Arduino a refused transmission, a count other than 1 or an empty buffer each give ESP_FAIL with `*val` untouched. The bus calls are exactly those of one read of `0x80 \| reg` |
| Driver.BurstFire.Init | burstfire_i2c_driver.c:26-50 | The result, new session state and bus calls are those of InitOutcome for the build, from the state before the call |
| Driver.BurstFire.Deinit | burstfire_i2c_driver.cpp:101-114 | The result, new session state and bus calls are those of DeinitOutcome for the build, from the state before the call |
| Driver.BurstFire.SetDuty | burstfire_i2c_driver.c:60-65 | Uninitialised: ESP_ERR_INVALID_STATE, whatever the duty, with no bus call. Duty above 10: ESP_ERR_INVALID_ARG with no bus call. Otherwise one write of `[0x00, duty]`, whose result is returned unchanged |
| Driver.BurstFire.GetDuty | burstfire_i2c_driver.c:67-72 | State guard, then NULL guard, both without bus calls; otherwise one read of REG_DUTY, with `*duty` written only on success |
| Driver.BurstFire.SetGrid60Hz | burstfire_i2c_driver.c:74-78 | State guard with no bus call; otherwise one write of `[0x02, 1]` for 60 Hz or `[0x02, 0]` for 50 Hz |
| Driver.BurstFire.GetStatus | burstfire_i2c_driver.c:80-85 | State guard, then NULL guard, both without bus calls; otherwise one read of REG_STATUS, with `*status` written only on success |
| Driver.BurstFire.IsConnected | burstfire_i2c_driver.cpp:143-153 | False with no bus call when uninitialised; otherwise one zero-payload probe, and true if and only if it is acknowledged |
| Driver.BurstFire.ScanDevices | burstfire_i2c_driver.c:94-110 | State guard, then NULL guard, each leaving the bus, the array and `*count` alone. Otherwise it returns ESP_OK after probing 0x20..0x23 in order. `*count` is the number of answering addresses, `addresses[0..*count)` holds them in probe order, and no slot from `*count` on is changed |
| Driver.BurstFire.Sweep | burstfire_i2c_driver.c:98-106 | The loop leaves the count of responders, the responders stored at the front of the array, the rest untouched, and one probe per address in order |
| Driver.BurstFire.SweepStep | burstfire_i2c_driver.cpp:163-166 | One probe; an answering address is stored at `addresses[*count]` and counted, keeping the sweep's invariant |
| Driver.BurstFire.GetFirmwareVersion | burstfire_i2c_driver.c:112-125 | State guard, then NULL guard on any of the three outputs, both without bus calls; otherwise the result, the three outputs and the bus calls of FirmwareRead, so an output is written only when its own read succeeded |
| Driver.BurstFire.ReadVersion | burstfire_i2c_driver.c:116-124 | The three reads stop at the first failure and write each output only on its own successful read |
| Driver.BurstFire.GetDeviceInfo | burstfire_i2c_driver.cpp:188-206 | State guard, then NULL guard, both without bus calls; otherwise the result, the record and the bus calls of InfoOutcome: address set, probe, then the firmware read or the zeroing, with `connected` rolled back on a failed read |
| Driver.StoreNext | burstfire_i2c_driver.c:103 | Storing a found address at `addresses[*count]` extends the found prefix and leaves the rest of the array as it was |

## Left out

- The vendor bus libraries are not part of this model. These are ESP-IDF's `i2c_param_config`, `i2c_driver_install`, `i2c_driver_delete`, `i2c_master_write_to_device` and `i2c_master_write_read_device`, and the Arduino `Wire` object. They appear only as results drawn from an oracle, plus a log of calls.
- Oracle results depend only on the arguments of the call: the configuration or port for `i2c_param_config`, `i2c_driver_install` and `i2c_driver_delete`; the address and bytes sent for the transfers; and, for `requestFrom`, the address, the command that address last acknowledged and the quantity asked for. They do not depend on time or on earlier traffic: bus noise, retries and remote state changes are not modelled.
- Transport.Bus.WriteReadDevice: a failed `i2c_master_write_read_device` is taken to leave the receive buffer untouched. The vendor library makes no such promise, so an output after a failed ESP-IDF read may in reality hold a partial byte.
- Transport.Bus.RequestFrom: the count `requestFrom` reports and the bytes it buffers come from the oracle independently. This keeps the driver's "count was 1 but nothing is available" branch reachable. The Wire library itself keeps the two consistent.
- The 100 ms timeouts (`pdMS_TO_TICKS(100)`) are timing only and are not modelled.
- Pins and clock speed are passed to the bus calls but not interpreted. The fixed master mode, pull-up enables and `i2c_driver_install` arguments (burstfire_i2c_driver.c:30-34, 41) are constants and are not modelled.
- Logging (`ESP_LOGI`, `LOGI`, `LOGE`, the `TAG` string) is a side effect only and is left out.
- Concurrency is left out. Two callers racing on the unprotected globals are not modelled, because the driver makes no thread-safety claim.
- Pointer aliasing is not captured. Two output pointers to the same byte (say `major == minor` in `burstfire_get_firmware_version`) are modelled as independent values.
- Driver.BurstFire.ScanDevices requires the caller's array to have room for every responding address (at most four), but only once both guards have passed and the sweep runs. The C code has no length parameter, and a smaller array there is a buffer overflow, which is not modelled.
- The usage example at the top of the header names functions that do not exist (`burstfire_i2c_init`, `burstfire_i2c_read_reg`), so it is not modelled.
- The controller's firmware is not part of this model. That covers whether a written duty or grid value is later reported back through REG_STATUS, and the documented constant value of REG_MAX_DUTY. Reads return whatever the oracle answers.
