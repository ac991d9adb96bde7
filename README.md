# LIS3DH frame encoder

A model of the sample-to-frame encoder of the accelerometer firmware in
`AY1920_II_HW_05_PROJ_3.cydsn/main.c`. The firmware polls a LIS3DH
accelerometer over I2C whenever a timer interrupt sets `timer_flag`. It
decodes the three axes from a 6-byte burst read, scales them to mm/s^2, and
sends a 14-byte frame on the UART:

| byte | content |
|---|---|
| 0 | header `0xA0` |
| 1-4 | X as `int32`, least significant byte first |
| 5-8 | Y, same layout |
| 9-12 | Z, same layout |
| 13 | footer `0xC0` |

Before the loop starts, the firmware configures the sensor. It writes
CTRL_REG1 with `0x57` only if the value it read differs. It writes
CTRL_REG4 with `0x98` every time. It reads each register back.

Modules:

- `Types` (types.dfy): `uint8_t`, `int16` and `int32_t` as bounded integers, and the driver's `ErrorCode`.
- `Sample` (sample.dfy): one axis is `(int16)(lo | (hi << 8)) >> 4`. The model states this as a low-byte-first join, a two's-complement reading and a floor division by 16. A partner function `EncodeAxis` gives the register bytes that hold a 12-bit sample.
- `Frame` (frame.dfy): `(uint8_t)(v >> 8k)` as floor division and truncation, the 14-byte layout, and a host-side `Decode` that serves as the inverse of the encoder.
- `Firmware` (firmware.dfy): the class `MainLoop` holds the state of `main`'s loop. `OutArray` and `AccelerationData` are arrays updated in place. `timer_flag` is a field, and the frames sent so far are a sequence. `Poll` is one pass of the `for(;;)` body. `Run` is a finite stretch of the endless loop: timer interrupts and loop passes, in order.
- `Config` (config.dfy): the configuration sequence, over a value-typed `Bus`. A `Bus` holds an abstract register map, the outcome of each coming transaction, and a log of the transactions issued.

The `float32` scaling and the `+0.5` rounding are not computed. `Poll` takes
them as an arbitrary total function `convert` from the decoded sample to an
`int32`. So the model shows only that each packed value depends on its own
axis's sample.

The vendor driver's source is not part of this model. So the model assumes
that a failed register read leaves its destination as it was. The locals
`ctrl_reg1` and `ctrl_reg4` start out uninitialised. Their starting values
are parameters (`stale1`, `stale4`). The CTRL_REG1 decision compares
whatever value `ctrl_reg1` holds, even when the read just failed. So if that
read fails and the stale value happens to be `0x57`, the register is not
written (`Config.RewritesCtrl1`). The model keeps this behaviour as the code
has it.

Two details of the code that the model keeps as written:

- CTRL_REG4 is written with `0x98` at main.c:208-212 whatever value the read at main.c:193-195 returned.
- The loops at main.c:258 and 270 test the constant expression `LIS3DH_STATUS_REG & LIS3DH_STATUS_REG_DATA_AVAILABLE` (`0x27 & 0x04`), which is non-zero, so they never wait. The comment at main.c:268 says they wait for new data, but no register is read. The model leaves them out.

## Model

| member | source | states |
|---|---|---|
| Sample.Join | AY1920_II_HW_05_PROJ_3.cydsn/main.c:284 | the joined 16-bit pattern is below 2^16, its low byte is the first register byte, and its high byte is the second |
| Sample.JoinBitsIsJoin | AY1920_II_HW_05_PROJ_3.cydsn/main.c:284 | the C expression that ORs `lo` with `hi << 8`, evaluated on bit-vectors, equals `lo + 256 * hi` |
| Sample.AsInt16 | AY1920_II_HW_05_PROJ_3.cydsn/main.c:284 | the `(int16)` cast is two's complement: the result has the same pattern modulo 2^16, and it is negative exactly when bit 15 is set |
| Sample.ShiftRight4 | AY1920_II_HW_05_PROJ_3.cydsn/main.c:284 | `>> 4` on a signed value gives the `s` with `16*s <= v < 16*s + 16`, that is, floor division |
| Sample.DecodeAxis | AY1920_II_HW_05_PROJ_3.cydsn/main.c:284 | a decoded sample lies in [-2048, 2047] and is the signed 16-bit value divided by 16, rounded down |
| Sample.AxisOf | AY1920_II_HW_05_PROJ_3.cydsn/main.c:284-313 | each axis of the burst (X from bytes 0-1, Y from 2-3, Z from 4-5) decodes to a sample in [-2048, 2047] |
| Sample.JoinAsInt16 | AY1920_II_HW_05_PROJ_3.cydsn/main.c:284 | joining the two bytes of any `int16` pattern and casting gives that `int16` back |
| Sample.DecodeEncodeAxis | AY1920_II_HW_05_PROJ_3.cydsn/main.c:284 | round trip: the register bytes of any 12-bit sample decode to that sample, whatever the four low bits are |
| Sample.DecodeAxisIff | AY1920_II_HW_05_PROJ_3.cydsn/main.c:284 | both directions: a byte pair decodes to `s` if and only if it is the encoding of `s`, with the low nibble the decoder drops |
| Frame.Offset | AY1920_II_HW_05_PROJ_3.cydsn/main.c:295-323 | the four bytes of every axis (X at 1, Y at 5, Z at 9) lie strictly between the header and the footer |
| Frame.ByteOfPattern | AY1920_II_HW_05_PROJ_3.cydsn/main.c:295-298 | the byte extraction `(uint8_t)(v >> 8k)` (and `v & 0xFF` for k = 0), done as floor division and truncation, gives byte `k` of the 32-bit two's-complement pattern of `v`, for negative values too |
| Frame.Pack32 | AY1920_II_HW_05_PROJ_3.cydsn/main.c:295-298 | an axis value fills exactly four bytes |
| Frame.ReadLE32 | AY1920_II_HW_05_PROJ_3.cydsn/main.c:298 | the value read back is non-negative exactly when the most significant byte is below 0x80 |
| Frame.ReadPack32 | AY1920_II_HW_05_PROJ_3.cydsn/main.c:295-298 | round trip: reading the four packed bytes as a little-endian two's-complement `int32` returns the packed value, for every `int32` |
| Frame.PackRead32 | AY1920_II_HW_05_PROJ_3.cydsn/main.c:295-298 | the other direction: every 4-byte group is the packing of the value it reads as |
| Frame.Encode | AY1920_II_HW_05_PROJ_3.cydsn/main.c:243-249 | a frame is 14 bytes long, with `0xA0` first and `0xC0` last |
| Frame.EncodeLayout | AY1920_II_HW_05_PROJ_3.cydsn/main.c:295-323 | byte `k` of axis `a` sits at `1 + 4a + k` and is `(v >> 8k) & 0xFF` |
| Frame.DecodeEncode | AY1920_II_HW_05_PROJ_3.cydsn/main.c:295-327 | the host reads back, from any frame, exactly the three values packed into it |
| Frame.EncodeDecode | AY1920_II_HW_05_PROJ_3.cydsn/main.c:243-327 | every byte sequence the host accepts is exactly the encoding of the three values it reads, so no frame other than an encoding passes its framing check |
| Firmware.InterruptsAppend | AY1920_II_HW_05_PROJ_3.cydsn/InterruptRoutines.c:16-24 | counting flag sets over a run: one more event adds one exactly when it is a timer interrupt |
| Firmware.FrameFor | AY1920_II_HW_05_PROJ_3.cydsn/main.c:281-327 | the frame built from any burst is well framed |
| Firmware.FrameForDecodes | AY1920_II_HW_05_PROJ_3.cydsn/main.c:281-327 | the frame built from a burst carries the scaled X, Y and Z samples, each decoded from its own two bytes |
| Firmware.MainLoop.constructor | AY1920_II_HW_05_PROJ_3.cydsn/main.c:243-252 | set-up writes the header and the footer, clears the flag, and has sent nothing |
| Firmware.MainLoop.OnTimer | AY1920_II_HW_05_PROJ_3.cydsn/InterruptRoutines.c:16-24 | the interrupt sets the flag |
| Firmware.MainLoop.PutInt32 | AY1920_II_HW_05_PROJ_3.cydsn/main.c:295-298 | four in-place byte writes replace exactly the four bytes at the offset with the packing of the value, and leave the header and the footer alone |
| Firmware.MainLoop.Poll | AY1920_II_HW_05_PROJ_3.cydsn/main.c:265-328 | nothing happens unless the flag is 1, and then the flag is cleared; only a read without error rewrites bytes 1-12 and sends the frame; on error the frame keeps its previous contents and nothing is sent; header and footer always hold |
| Firmware.MainLoop.Run | AY1920_II_HW_05_PROJ_3.cydsn/main.c:263-330 | over any run, frames are only appended, every frame sent is well framed, and the frames sent never outnumber the flag sets |
| Config.ReadRegister | AY1920_II_HW_05_PROJ_3.cydsn/main.c:108-110 | the assumed driver read: one `Read` transaction with the next outcome; on success the destination gets the register's value, on failure it keeps its previous value; no register changes |
| Config.WriteRegister | AY1920_II_HW_05_PROJ_3.cydsn/main.c:151-153 | the assumed driver write: one `Write` transaction with the next outcome; on success the register takes the value; on failure, and for every other register, nothing changes |
| Config.Ctrl1Seen | AY1920_II_HW_05_PROJ_3.cydsn/main.c:125-128 | the value `ctrl_reg1` holds at the comparison: the register's value if its read succeeded, otherwise the stale initial value of the local |
| Config.RewritesCtrl1 | AY1920_II_HW_05_PROJ_3.cydsn/main.c:147 | both directions: after a successful read, CTRL_REG1 is rewritten exactly when it is not `0x57`; after a failed read, exactly when the stale local is not `0x57` |
| Config.Ctrl1Sequence | AY1920_II_HW_05_PROJ_3.cydsn/main.c:122-182 | the CTRL_REG1 phase writes `0x57` to CTRL_REG1 if and only if it decided to rewrite, and writes nothing else |
| Config.SetCtrl1 | AY1920_II_HW_05_PROJ_3.cydsn/main.c:105-182 | CTRL_REG1 is written only if the value read differs from `0x57`; the register changes only if that write succeeds; the error and value reported are those of the read-back |
| Config.SetCtrl4 | AY1920_II_HW_05_PROJ_3.cydsn/main.c:191-216 | CTRL_REG4 is always written with `0x98`; the reported error is the read-back's, so a failed write is never reported |
| Config.Configure | AY1920_II_HW_05_PROJ_3.cydsn/main.c:105-227 | the whole transaction log, the registers afterwards and the reported error, for every fault pattern; with no faults, both registers end configured |

## Left out

- The `float32` scaling (`* 2 * 9.81`) and the rounding `(int32)(x + 0.5)` at main.c:290-292, 303-305 and 315-317. They are floating point, so the model passes an arbitrary `int -> int32` function instead.
- The I2C and UART driver calls, `CyDelay`, `Timer_Start`, `Timer_WriteCounter` and `isr_StartEx`. They are vendor hardware routines whose source is not part of this model. The model stands in for the driver with the environment's inputs: the read outcome and the burst bytes in `Poll`, and the register map and fault list in `Config.Bus`. Only the values `NoError` and `Error` of the driver's `ErrorCode` are modelled.
- The device address `0x18`: every transaction goes to the one accelerometer, so `Config.Transaction` does not carry it.
- The I2C bus scan (main.c:84-93) and every `sprintf`/`UART_Debug_PutString` diagnostic. They only format and print output. The value read from STATUS_REG is printed only, so the model keeps just the transaction.
- The "wait for data" loops at main.c:258 and 270. Their condition is a constant that is always false, so they never wait.
- Concurrency between the timer interrupt and the main loop. `Run` interleaves whole interrupts with whole loop passes. It does not model an interrupt that fires inside a pass. One that fires between the flag test at main.c:265 and the clear at main.c:272 is lost, because the flag is already 1 and is then cleared. One that fires after the clear, during the read, the packing or `UART_Debug_PutArray`, sets the flag, and the next pass handles it, exactly as a `TimerInterrupt` event right after the `LoopPass` does in `Run`. Neither case can make the frames outnumber the flag sets.
- The endless `for(;;)`: `Run` covers any finite prefix of it.
- The indeterminate initial contents of `OutArray[1..12]`: Dafny zero-fills the array, but the constructor promises nothing about those bytes.
- Frame.Pack32: its own contract states only the length; the round trips `Frame.ReadPack32` and `Frame.PackRead32` state the contents.
- The raw-count variant of the firmware (`AY1920_II_HW_05_PROJ_2.cydsn`) and both `InterruptRoutines.h` headers, which only declare the interrupt routine and the flag.
