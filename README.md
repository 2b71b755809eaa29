# SH1122 OLED driver — a Dafny model

This project models `Sh1122Device`, the driver for the SH1122 256 x 64 greyscale OLED
controller (`sh1122/src/dev.rs`). It has three parts.

- **The framebuffer.** Four bits per pixel, two pixels per byte, row by row, with the left
  pixel of each pair in the high nibble. The model covers `get_idx`, `get_pixel`,
  `set_pixel`, `fill` and `partial_fill`.
- **The command helpers and `init_display` / `flush`.** These are sequences of transport
  calls. Every call is followed by `?`, so the first failure ends the sequence.
- **`partial_flush`.** It computes a byte-aligned, clamped window and turns it into address
  commands and buffer slices.

Files:

- `Ifce.dfy` (module `Ifce`) models the transport, `Sh1122Interface`, as a recorder.
  - `Interface` is a class with a `trace` of `Cmd(op, payload)` / `Data(bytes)` events.
  - It also holds a fixed fault schedule: call number `k` fails when `k` is a key of
    `faults`.
  - A sequence of calls is described by a *script*:
    - `Attempted(script, faults, start)` is what actually reaches the transport, up to and
      including the first failing call;
    - `Verdict` is what the caller returns.
  - Every fallible driver operation promises `iface.Performed(before, script, r)`: the
    trace grew by the attempted calls and `r` is the verdict.
- `Dev.dfy` (module `Dev`) models the driver.
  - `Device` is a class with the transport, the dimensions and the buffer as an
    `array<bv8>`.
  - The pure addressing, nibble, window and job arithmetic are functions and lemmas beside
    it.
  - Each command helper's calls are a script function (`ColAdrScript`, `FlushScript`, …).
  - `init_display` is the fourteen scripts of `InitStep`, run in order.
  - `partial_flush` is `JobsScript(Jobs(...))`.
- `Scenarios.dfy` (module `Scenarios`) holds two concrete runs on a 256 x 64 panel.

The opcode constants (`cmds::SET_DISP`, …) are abstract `bv8` constants. `cmds` is not part
of this model, so every property holds whatever the opcode values are. The `as u8` truncations of the source are explicit (`AsByte`: the value
modulo 256). The framebuffer has `width * height * 4 / 8` bytes, rounded down as the code
computes it. With the even width the driver needs, nothing is lost to the rounding.

## Model

| member | source | states |
|---|---|---|
| Ifce.Interface.WriteCmd | sh1122/src/ifce.rs:5 | one command is appended to the trace; it fails exactly when its call number is scheduled to fail, with that error |
| Ifce.Interface.WriteData | sh1122/src/ifce.rs:6 | one data write is appended to the trace; it fails exactly when its call number is scheduled to fail, with that error |
| Ifce.Single | sh1122/src/ifce.rs:4-7 | a one-call script is always issued and fails exactly when its call is scheduled to fail |
| Ifce.AttemptedIsPrefix | sh1122/src/dev.rs:36-38 | the calls a `?`-chain issues are a prefix of its script; it fails exactly when the last issued call is scheduled to fail, and returns that call's error |
| Ifce.RunsToEnd | sh1122/src/dev.rs:36-38 | a `?`-chain returns Ok exactly when none of its calls is scheduled to fail, and then every call is issued |
| Ifce.StopsAtFirstFault | sh1122/src/dev.rs:36-38 | when call `k` is the first to fail, exactly calls 0..k are issued and call k's error is returned |
| Ifce.SequencePass | sh1122/src/dev.rs:121-123 | after a part that succeeded, the next part runs numbered from where it ended, and its verdict is the whole's |
| Ifce.SequenceFail | sh1122/src/dev.rs:121-123 | after a part that failed, nothing of the next part is issued and the failure is the whole's |
| Dev.IndexInjective | sh1122/src/dev.rs:175 | distinct in-range pixels have distinct linear indices |
| Dev.IndexParity | sh1122/src/dev.rs:175-177 | with an even width, a pixel index has the parity of its column |
| Dev.ByteInBuffer | sh1122/src/dev.rs:18-25 | every in-range pixel's byte lies within the `width * height * 4 / 8`-byte buffer |
| Dev.BytePixels | sh1122/src/dev.rs:175-177 | every buffer byte holds two pixels of one row: an even column in its high nibble and the next column in its low nibble |
| Dev.NibbleWriteRead | sh1122/src/dev.rs:192-206 | reading a nibble after writing it gives the pixel's top four bits; the other nibble of the byte is unchanged |
| Dev.Device.WithInterface | sh1122/src/dev.rs:18-25 | the device keeps the transport and dimensions and owns a fresh zero-filled buffer of `width * height * 4 / 8` bytes |
| Dev.Device.GetIdx | sh1122/src/dev.rs:169-180 | byte index `(x + y*width) / 2`; shift 4 for an even pixel index, 0 for an odd one |
| Dev.Device.GetPixel | sh1122/src/dev.rs:192-198 | the pixel's byte is in the buffer; an even pixel index reads the byte's high nibble, an odd one the low nibble shifted up, so the low four bits are zero |
| Dev.Device.SetPixel | sh1122/src/dev.rs:200-206 | afterwards the pixel reads `pixel & 0xF0`; every other pixel reads as before; only the pixel's byte changes |
| Dev.Device.Fill | sh1122/src/dev.rs:208-215 | both nibbles of every byte hold the pixel's top four bits, so every pixel reads `pixel & 0xF0` |
| Dev.Device.PartialFill | sh1122/src/dev.rs:217-223 | every pixel of the rectangle reads `pixel & 0xF0`; every pixel outside it reads as before |
| Scenarios.PackTwoPixels | sh1122/src/dev.rs:200-206 | on a fresh 256 x 64 device, `set_pixel(0,0,0xF0)` then `set_pixel(1,0,0x10)` leaves `0xF1` in byte 0 |
| Dev.Device.DisplayOn | sh1122/src/dev.rs:27-29 | issues `SET_DISP` ORed with 1; its result is that call's |
| Dev.Device.DisplayOff | sh1122/src/dev.rs:31-33 | issues `SET_DISP` ORed with 0; its result is that call's |
| Dev.Device.SetColAdr | sh1122/src/dev.rs:35-39 | issues the low-nibble command, then (if that passed) the high-nibble command; the result is the first error or Ok |
| Dev.Device.SetRowAdr | sh1122/src/dev.rs:41-44 | issues `SET_ROW_ADR` with the row as payload |
| Dev.Device.SetStartLine | sh1122/src/dev.rs:46-49 | issues `SET_DISP_START_LINE` ORed with `line & 0x3F` |
| Dev.Device.SetSegRemapOff | sh1122/src/dev.rs:51-54 | issues `SET_SEG_REMAP` ORed with 0 |
| Dev.Device.SetSegRemapOn | sh1122/src/dev.rs:56-59 | issues `SET_SEG_REMAP` ORed with 1 |
| Dev.Device.SetMuxRatio | sh1122/src/dev.rs:61-64 | issues `SET_MUX_RATIO` with the ratio as payload |
| Dev.Device.SetComOutputScanDir | sh1122/src/dev.rs:66-69 | issues `SET_COM_OUT_DIR` ORed with `dir & 1` |
| Dev.Device.SetDisplayOffset | sh1122/src/dev.rs:71-74 | issues `SET_DISP_OFFSET` with the offset as payload |
| Dev.Device.SetContrast | sh1122/src/dev.rs:76-79 | issues `SET_CONTRAST` with the contrast as payload |
| Dev.Device.SetEntireOn | sh1122/src/dev.rs:81-84 | issues `SET_ENTIRE_ON` |
| Dev.Device.SetInverted | sh1122/src/dev.rs:86-89 | issues `SET_NORM_INV` ORed with 1 when inverted, with 0 otherwise |
| Dev.Device.Flush | sh1122/src/dev.rs:120-125 | column 0 (two commands), row 0, then one data write of the whole buffer, stopping at the first failing call and returning its error |
| Dev.Device.InitDisplayStep | sh1122/src/dev.rs:92-106 | step `k` runs the `k`-th call of `init_display` (0 = display off, …, 12 = display on, 13 = flush) with the arguments written there |
| Dev.Device.InitDisplay | sh1122/src/dev.rs:91-109 | runs the fourteen steps in order; the trace grows by the calls up to the first failing one, and the result is that call's error, or Ok |
| Dev.InitCallCount | sh1122/src/dev.rs:91-109 | `init_display` makes eighteen calls when none fails |
| Dev.InitWithoutFaults | sh1122/src/dev.rs:91-109 | `init_display` returns Ok exactly when none of its eighteen calls fails, and then all of them are made |
| Dev.InitFifthCallFails | sh1122/src/dev.rs:92-95 | when the fifth call is the first to fail, exactly display off, row 0, column low and high nibble and start line 0 are issued, and that error is returned |
| Scenarios.InitFailsOnFifthCall | sh1122/src/dev.rs:91-95 | on a 256 x 64 device whose bus fails on call 4, `init_display` returns that error after exactly five calls |
| Dev.Window | sh1122/src/dev.rs:132-145 | the window starts on an even column at most one pixel left of `x`, on row `y`, and ends within the display |
| Dev.WindowCovers | sh1122/src/dev.rs:132-145 | every requested pixel on the display lies inside the window |
| Dev.Jobs | sh1122/src/dev.rs:127-157 | off the display there are no transfers; every transfer starts on the display at an even column at or left of `x` and reads only bytes of the buffer |
| Dev.FullWidthJob | sh1122/src/dev.rs:151-152 | a full-width window started at column 0 or 1 and gives one transfer of `rows * width / 2` bytes from the first byte of row `y` |
| Dev.JobsCover | sh1122/src/dev.rs:149-157 | the byte of every requested on-display pixel is sent by some transfer |
| Dev.JobsWithinRows | sh1122/src/dev.rs:149-157 | every transfer reads only bytes of the window's rows |
| Dev.JobsScriptShape | sh1122/src/dev.rs:159-164 | the transfers go out in order, four calls each: call `4k + m` is call `m` of transfer `k` |
| Dev.TransferAt | sh1122/src/dev.rs:159-164 | transfer `k` is column low nibble, column high nibble, row (both truncated to a byte), then the buffer slice from the transfer's start |
| Dev.RowTransfers | sh1122/src/dev.rs:154-164 | a narrower window gives one transfer per row: transfer `j` addresses the aligned column and row `y + j`, then sends `(cols*4+4)/8` bytes from the row's first window byte, all in the buffer |
| Dev.WholeRowsTransfer | sh1122/src/dev.rs:151-164 | a full-width window gives exactly column 0, row `y`, and one write of the bytes of rows `y` .. `y + rows - 1` |
| Dev.Device.PlanJobs | sh1122/src/dev.rs:128-157 | the source's alignment, clamping and job loop compute exactly `Jobs` |
| Dev.Device.SendJobs | sh1122/src/dev.rs:159-166 | for each job in order, column, row and slice are sent, stopping at the first failing call and returning its error |
| Dev.Device.PartialFlush | sh1122/src/dev.rs:127-167 | issues the calls of `JobsScript(Jobs(...))` up to the first failure and returns its error; off the display it returns Ok and makes no call |

## Left out

- `print_buffer` (sh1122/src/dev.rs:111-118) writes debug output to the console. It changes no state.
- The I2C transport (`sh1122-rppal/src/i2c.rs`) and the demo program (`sh1122-test/src/main.rs`) are left out. The transport is the recording `Interface` instead; the demo depends on font rendering, the clock and a real bus.
- `get_width` / `get_height` are the plain accessors `GetWidth` / `GetHeight` and carry no contract.
- The numeric values of the `cmds` opcodes are not modelled. The transport error type is an opaque `TransportError`.
- Dev.Device.GetIdx: the `cfg!(debug_assertions)` range checks are preconditions. A release build would index past the row for an out-of-range `x`; that is not modelled.
- Dev.Device.SetPixel: it requires an in-range pixel; out-of-range writes in a release build are not modelled.
- Dev.Device.PartialFill: it requires a non-empty rectangle to lie on the display. This is the same debug check, reached through `set_pixel`.
- Dev.Device.WithInterface: it requires an even width. With an odd width the alignment step of `partial_flush` can underflow, and rows do not start on byte boundaries.
- Dev.Device.InitDisplay: it requires `height >= 1`, because `height - 1` underflows otherwise.
- Machine-width (`usize`) overflow is not modelled; sizes and coordinates are unbounded naturals.
- Dev.Device.InitDisplay: the thirteen helper calls and the flush are written as a loop over the step dispatcher `InitDisplayStep`, not as fourteen lines. Each step runs the same call with the same arguments, in the same order.
- Dev.Device.PartialFlush: its body is split into `PlanJobs` (window and job list) and `SendJobs` (the transfers). The source does both in one function.
- Dev.InitCallCount: the full eighteen-event list of `init_display` is not stated as one equality. The order is given by `InitStep`, the count by this lemma and the first five calls by `InitFifthCallFails`.
