# ykneo-ccid-modeswitch, modelled in Dafny

`ykneo-ccid-modeswitch` (`NEO_Config.c`, one `main`) reconfigures a YubiKey NEO over
PC/SC. It parses a `-m` mode option and the `-y`, `-v` and `-h` options. It then connects
to the first card reader and SELECTs the NEO applet. From the reply it prints the STATUS
record (version and program sequence counter `pgmSeq`) and the DEVICE_CONFIG record
(Mode, Flags, challenge-response timeout, eject time). It reads a commit answer (or
takes "yes" with `-y`) and sends a device-configuration write. It reports the update
"successful" exactly when the `pgmSeq` in the write's reply is one more than the
first one.

The model has six modules. Four follow the parts of `main`; `Bits` holds the integer `|` the option loop uses and `Wrappers` the `Option` type:

- `Options` (`options.dfy`): the `getopt` loop as the method `ParseOptions`. It is
  proved equal to a fold (`Parse`) of one step per option. Lemmas characterise when the
  loop proceeds, exits with 1 or exits with 0, what a one- or two-character `-m`
  argument does to `usb_mode`, and the examples in the usage text.
- `Bits` (`bits.dfy`): C's `|` on the non-negative `int`s the loop produces, with its
  per-bit meaning and the case where it is addition (`(x << 4) | y` for `y < 16`).
- `Device` (`device.dfy`): the header constants as one `Constants` value, and the
  STATUS and DEVICE_CONFIG records with their serialisations and parsers (round trips
  proved). It also has the Mode/Flags split of a mode byte.
- `Apdu` (`apdu.dfy`): command frames as a `Command` value with `Encode`/`Decode`
  (round trips both ways), and the two frame builders as methods that write the
  261-byte command buffer in place. It also models the 256-byte reply buffer that each
  reply overwrites from the front, and what a reply of any length leaves in it.
- `ModeSwitch` (`mode_switch.dfy`): the commit buffer (`strlen` and the newline trim
  in place), the sequence verdict, and the whole program. `RunProgram` is proved equal to the
  trace function `Expected`, and `Converse` (the part after the card is connected) to
  `Exchange`. A trace holds the exit, the
  frames sent, the fields shown, the trimmed answer and the verdict. Lemmas state what
  the program sends and reports in each case.
- `Wrappers` (`wrappers.dfy`): `Option`.

The model follows what the code does:

- The write always carries `mode = MODE_OTP`. The parsed `usb_mode` and `verbose`
  never reach a frame or an output: `FramesSent` shows the second frame is a fixed
  function of the constants.
- The commit answer is computed and trimmed, never tested. The write is sent whatever
  it is.
- No received length is checked. STATUS and DEVICE_CONFIG are read at fixed offsets of
  the reply buffer. A short reply leaves bytes from the buffer's earlier contents in
  those fields, which `PgmSeqAfterReply` states.
- The verdict compares `int`s. `firstSeq = 255` therefore always reports "failed",
  even when the device's one-byte counter wraps to 0.
- A failed transmit prints a message and the program still exits with 0.
- The code checks neither the characters of the `-m` argument nor the length of a
  reply. `Digit` is `ch - '0'`: `'a'` gives 49, and a last character below `'0'` gives
  a negative "mode" that is rejected. Each reply is read at fixed offsets whatever its
  length.

C undefined behaviour is not reproduced. It is an explicit outcome instead
(`Options.ParseResult.Undefined`, `ModeSwitch.Outcome.UndefinedBehaviour`) in four cases:

- an empty `-m ""` (`optarg[1]` read past the string);
- a two-or-more-character argument whose first character is below `'0'` (a negative
  value shifted left);
- `fgets` failing, or an answer whose first byte is NUL (`commitbuf[commitlen - 1]`
  with `commitlen == 0`);
- a write reply compared against `firstSeq` after the SELECT transmit failed
  (`firstSeq` uninitialised).

Assumptions, stated because the headers (`ykdef.h`, `neo_if.h`) are not part of this
model:

- NEO_AID, INS_YK2_REQ, SLOT_DEVICE_CONFIG, MODE_MASK (taken to fit in a byte),
  MODE_OTP, DEFAULT_CHAL_TIMEOUT and the host byte order are fields of `Constants`.
- STATUS is `versionMajor, versionMinor, versionBuild, pgmSeq` (one byte each) followed
  by the 16-bit `touchLevel`, 6 bytes. DEVICE_CONFIG is `mode, crTimeout` followed by the
  16-bit `autoEjectTime`, 4 bytes. The SELECT reply holds DEVICE_CONFIG at offset 6.
  16-bit fields follow the host byte order.
- DEVICE_CONFIG is byte-packed (alignment 1), as the source's framing needs. With a
  naturally aligned 16-bit `autoEjectTime` the `data`/`config` union of `APDU_2`
  (NEO_Config.c:52-62) would start at offset 6, not 5. Then `5 + sizeof(neoAID)` and
  `5 + lc` at lines 224 and 267 would not cover the frame. The model puts the data at
  offset 5 (`HEADER_SIZE`) in a 261-byte command buffer. STATUS, and the `select`
  structure of `rAPDU` (lines 124-131), are taken packed in the same way.
- Option arguments are byte strings. Each character of `Options.CString` stands for
  one byte of the `argv` string and has a code below 0x100, so a non-ASCII argument
  is as many characters as it has bytes in its encoding. `char` is taken unsigned, so
  `ch - '0'` ranges over -48..207. Option arguments contain no NUL, since they are C
  strings from `argv`. The line `fgets` stores in `commitbuf` is read the same way, one
  character per byte, and its 255-character bound counts bytes.

## Model

| member | source | states |
|---|---|---|
| `Options.Digit` | NEO_Config.c:143-147 | `ch - '0'` is a digit value 0..9 exactly for the characters `'0'`..`'9'` |
| `Options.ModeOption` | NEO_Config.c:141-158 | The `-m` case: undefined exactly for an argument that is not defined; it never exits 0; it exits 1 only while no mode has been seen; when it proceeds a mode has been seen and `verbose`, `autocommit` are unchanged. Its values are given by `TwoDigitMode` and `TwoCharMode` (an accepted two-character token), `OneDigitMode` (an accepted digit) and `RejectedMode` (a rejected token, including the high-nibble overwrite of line 143) |
| `Options.ApplyOption` | NEO_Config.c:140-170 | One pass of the `switch` exits 0 exactly for an option other than `-m`, `-v`, `-y`. When it proceeds, a mode once seen stays seen and `verbose`, `autocommit` are set iff set before or the option is `-v`, `-y`. `ApplyOptionFacts` gives the full case split |
| `Options.RunOptions` | NEO_Config.c:139-171 | The loop ends only with exit 0 or 1, the settings, or undefined behaviour; in the settings a seen mode, `verbose` and `autocommit` once set stay set. `RunBeforeMode`, `RunAfterMode` and `RunAppend` characterise it |
| `Options.Parse` | NEO_Config.c:139-177 | The option handling exits only with 0 or 1, and it proceeds only when a mode has been seen. `ParseProceeds` and `ParseExitsOne` characterise it |
| `Options.ParseOptions` | NEO_Config.c:139-177 | The imperative option loop over `usb_mode`, `usb_mode_seen`, `verbose`, `autocommit` ends exactly as the fold `Parse` of the per-option step: proceeding with the settings, exiting 0 or 1, or undefined |
| `Options.TwoDigitMode` | NEO_Config.c:142-151 | A `-m "xy"` with `x >= '0'` and `y - '0'` in [0, MODE_MASK) and below 16 sets `usb_mode` to `16*(x-'0') + (y-'0')` (for decimal digits `x`, `y` this is the token read as a hex byte; `"A1"` gives 273) and `usb_mode_seen`, other settings unchanged |
| `Options.TwoCharMode` | NEO_Config.c:142-151 | Any `-m "xy"` with `x >= '0'` and `y - '0'` in [0, MODE_MASK) sets `usb_mode_seen` and gives a `usb_mode` whose bits are exactly those of `(x-'0') << 4` and of `y-'0'`, whatever it held before |
| `Options.OneDigitMode` | NEO_Config.c:146-151 | A one-digit `-m d` in range is ORed into the previous `usb_mode`: each bit of the result is set iff it was set before or in `d - '0'`; `usb_mode_seen` becomes true |
| `Options.RejectedMode` | NEO_Config.c:142-157 | A defined argument that is not a mode token (three or more characters, or last digit outside [0, MODE_MASK)) leaves `usb_mode_seen` unchanged: the loop goes on iff a mode was seen, else exits 1. When it goes on, `usb_mode` is overwritten with `(t[0]-'0') << 4` for a token of two or more characters, and kept for one character |
| `Options.ApplyOptionFacts` | NEO_Config.c:140-170 | One option proceeds iff it is `-m` with a defined argument (and a mode seen or a mode token), `-v` or `-y`; exits 1 iff the first valid mode is still missing and the token is rejected; exits 0 iff the option is unknown or `-h`; how seen/verbose/autocommit change |
| `Options.RunAfterMode` | NEO_Config.c:139-171 | Once a mode has been seen the loop never exits 1, and runs to its end iff every option is `-m` with a defined argument, `-v` or `-y`; `verbose`/`autocommit` end set iff set before or their option occurs |
| `Options.RunBeforeMode` | NEO_Config.c:139-171 | Before any mode is seen the loop runs to its end iff every option is known and defined and the first `-m` (if any) is a mode token; it exits 1 iff the first option other than `-v`/`-y` is a rejected `-m` |
| `Options.RunAppend` | NEO_Config.c:139-171 | Running the loop over two option lists in turn is running it over the first and, if that proceeds, over the second from the settings reached |
| `Options.ParseProceeds` | NEO_Config.c:139-177 | The program gets past option handling iff every option is known and defined and the first `-m` carries a mode token; then `usb_mode_seen` holds and `verbose`, `autocommit` record whether `-v`, `-y` occurred |
| `Options.ParseExitsOne` | NEO_Config.c:141-157 | The program exits 1 iff the first option other than `-v`/`-y` is a `-m` whose argument is defined but not a mode token |
| `Options.NoModeExitsZero` | NEO_Config.c:173-177 | Options made only of `-v` and `-y` (or none) print the usage and exit 0 |
| `Options.HelpExitsZero` | NEO_Config.c:165-169 | `-h` or an unknown option reached by the loop exits 0 whatever follows it |
| `Options.EmptyModeUndefined` | NEO_Config.c:142 | An empty `-m` argument reached by the loop is undefined behaviour |
| `Options.EjectFlagExample` | NEO_Config.c:142-151 | `-m 81` gives `usb_mode = 0x81` with the mode seen, for any MODE_MASK above 2 |
| `Options.CompositeExample` | NEO_Config.c:146-151 | `-y -m 2` gives `usb_mode = 2`, mode seen, autocommit set |
| `Options.OutOfRangeExample` | NEO_Config.c:146-157 | `-m 9` exits 1 when MODE_MASK is at most 9 |
| `Options.RepeatedModeExample` | NEO_Config.c:143-150 | `-m 81 -m 2` leaves `usb_mode = 0x83`: the second digit is ORed into the first value |
| `Options.Utf8ModeExample` | NEO_Config.c:142-151 | `-m é` (UTF-8 bytes C3 A9) takes the two-byte path and is accepted with MODE_MASK 0x7F, since `0xA9 - '0'` is 121 |
| `Options.OverwrittenModeExample` | NEO_Config.c:142-157 | With MODE_MASK 3, `-m 81 -m 89` proceeds with `usb_mode = 0x80`: the rejected second token has overwritten the mode with its high nibble |
| `Bits.OrBit` | NEO_Config.c:149 | Bit k of `a \| b` is set iff bit k of `a` or of `b` is set |
| `Bits.OrDisjoint` | NEO_Config.c:143-149 | When all bits of `b` lie below bit k and no bit of `a` does, `a \| b == a + b` |
| `Bits.NibbleOr` | NEO_Config.c:143-149 | `(hi << 4) \| lo == 16*hi + lo` for `lo < 16` |
| `Bits.Or` | NEO_Config.c:149 | `a \| b` is at least each operand and at most their sum. `OrBit` gives its bits |
| `Device.U16Bytes` | NEO_Config.c:238 | A 16-bit field takes two bytes, laid out in host order. `U16Of` and `U16RoundTrip` invert it |
| `Device.StatusBytes` | NEO_Config.c:124-131 | The STATUS layout is 6 bytes. `ParseStatus` and `StatusRoundTrip` invert it |
| `Device.ConfigBytes` | NEO_Config.c:124-131 | The DEVICE_CONFIG layout is 4 bytes. `ParseConfig` and `ConfigRoundTrip` invert it |
| `Device.U16Of` | NEO_Config.c:238 | Reading a 16-bit field in host order is the inverse of laying it out: its bytes are the two bytes read |
| `Device.U16RoundTrip` | NEO_Config.c:238 | Laying out a 16-bit field and reading it back gives the value |
| `Device.ParseStatus` | NEO_Config.c:232-239 | The STATUS record read from a buffer has `pgmSeq` at offset 3 and serialises back to the buffer's first 6 bytes |
| `Device.ParseConfig` | NEO_Config.c:235-238 | The DEVICE_CONFIG record read from bytes serialises back to those 4 bytes |
| `Device.StatusRoundTrip` | NEO_Config.c:124-131 | A STATUS record laid out and followed by anything reads back as itself |
| `Device.ConfigRoundTrip` | NEO_Config.c:124-131 | A DEVICE_CONFIG record laid out and followed by anything reads back as itself |
| `Device.ZeroConfigBytesOrderFree` | NEO_Config.c:262-264 | A record with `autoEjectTime = 0` has the same bytes `[mode, crTimeout, 0, 0]` on either host byte order |
| `Device.SplitMode` | NEO_Config.c:235-236 | Mode (`m & MODE_MASK`) and Flags (`m & ~MODE_MASK`) are disjoint, OR back to `m`, and lie inside and outside the mask |
| `Device.SplitModeInjective` | NEO_Config.c:235-236 | Two mode bytes with equal Mode and Flags are equal |
| `Apdu.Lc` | NEO_Config.c:220 | Storing a length in the one-byte `lc` keeps it exactly when it is below 256 |
| `Apdu.Decode` | NEO_Config.c:52-62 | A frame reads back as a command exactly when it has a header and its `lc` equals its data length |
| `Apdu.DecodeEncode` | NEO_Config.c:52-62 | A command with under 256 data bytes, encoded, decodes to itself |
| `Apdu.EncodeDecode` | NEO_Config.c:52-62 | A frame that decodes re-encodes to the same bytes |
| `Apdu.Encode` | NEO_Config.c:52-62 | A frame is the 5 header bytes followed by the data. `Decode`, `DecodeEncode` and `EncodeDecode` invert it |
| `Apdu.SelectCommand` | NEO_Config.c:216-221 | The SELECT command carries the AID as its data, and its frame decodes back to it exactly when the AID is under 256 bytes (otherwise `lc` wraps) |
| `Apdu.WriteConfigCommand` | NEO_Config.c:256-264 | The write command's frame decodes back to it, and its 4 data bytes read back as `{MODE_OTP, DEFAULT_CHAL_TIMEOUT, 0}` |
| `Apdu.SelectView` | NEO_Config.c:232-239 | The two records read from the reply buffer have `pgmSeq` at byte 3 and serialise back to the buffer's first 10 bytes |
| `Apdu.SelectFrameLayout` | NEO_Config.c:216-221 | The SELECT frame is `00 A4 04 00 \|AID\|` followed by the AID, and decodes to the SELECT command |
| `Apdu.WriteConfigFrameLayout` | NEO_Config.c:256-264 | The write frame is `00 INS_YK2_REQ SLOT_DEVICE_CONFIG 00 04 MODE_OTP DEFAULT_CHAL_TIMEOUT 00 00`, the same on either byte order, and its data reads back as `{MODE_OTP, DEFAULT_CHAL_TIMEOUT, 0}` |
| `Apdu.WriteHeader` | NEO_Config.c:216-220 | The five header bytes are written and the rest of the command buffer is unchanged |
| `Apdu.WriteData` | NEO_Config.c:221 | Bytes copied into the data field replace exactly that range of the command buffer |
| `Apdu.BuildSelect` | NEO_Config.c:216-224 | The command buffer starts with the encoded SELECT frame, the rest unchanged, and `5 + \|AID\|` bytes are transmitted |
| `Apdu.BuildWriteConfig` | NEO_Config.c:256-267 | The command buffer starts with the encoded write frame, the rest (stale AID bytes) unchanged, and `5 + lc = 9` bytes are transmitted |
| `Apdu.Overlay` | NEO_Config.c:223-225 | The reply buffer after a reply keeps its size |
| `Apdu.Receive` | NEO_Config.c:223-225 | A received reply replaces the front of the reply buffer; the remaining bytes stay as they were |
| `Apdu.PgmSeqAfterReply` | NEO_Config.c:266-275 | The `pgmSeq` read after a reply is the reply's byte 3 if it has one, else the byte the buffer held: no received length is checked |
| `Apdu.SelectViewOfLongReply` | NEO_Config.c:230-238 | A reply of 10 or more bytes gives the same STATUS and DEVICE_CONFIG whatever the buffer held or the reply holds beyond them |
| `ModeSwitch.Show` | NEO_Config.c:232-238 | The shown STATUS and DEVICE_CONFIG are the records read from buffer bytes 0..6 and 6..10. Mode is `config.mode & MODE_MASK` and Flags is `config.mode & ~MODE_MASK`, that is, the split `SplitMode` characterises. The shown `pgmSeq` is buffer byte 3 |
| `ModeSwitch.ShownModeAndFlags` | NEO_Config.c:235-236 | The shown Mode and Flags are disjoint and OR back to the shown config mode |
| `ModeSwitch.UpdateSucceeded` | NEO_Config.c:276-277 | "successful" iff `firstSeq != 255` and `pgmSeq` is `firstSeq + 1`; with `firstSeq = 255` always "failed" |
| `ModeSwitch.SequenceExamples` | NEO_Config.c:276-277 | 5 then 6 succeeds; 5 then 5, 5 then 7, and 255 then 0 fail |
| `ModeSwitch.CStrLen` | NEO_Config.c:250 | `strlen` is the index of the first NUL (or the length): no NUL before it, a NUL at it |
| `ModeSwitch.CStrLenAt` | NEO_Config.c:250 | A NUL at n with none before it makes `strlen` equal n |
| `ModeSwitch.TrimmedLine` | NEO_Config.c:251-252 | The trimmed answer is the answer, or the answer minus one final newline, and it is the latter exactly when the answer ends in a newline |
| `ModeSwitch.TrimNewline` | NEO_Config.c:251-252 | The character before the terminator becomes NUL iff it is a newline; every other character is unchanged |
| `ModeSwitch.ReadCommit` | NEO_Config.c:243-252 | The commit buffer filled with "yes" or the `fgets` line, measured and trimmed in place, holds `CommitAnswer`: undefined when `fgets` failed or the answer is empty |
| `ModeSwitch.CommitAnswer` | NEO_Config.c:243-252 | The answer is undefined exactly when there is no `-y` and `fgets` failed or the line's first byte is NUL. With `-y` it is "yes". Otherwise it has no NUL, and it is the line up to its NUL with one final newline removed exactly when the line ends in one |
| `ModeSwitch.Exchange` | NEO_Config.c:214-279 | After connecting, one or two frames are sent, the SELECT frame first. Fields are shown exactly when the SELECT transmit succeeded. The exit is never 1. A verdict is printed only after two successful transmits and with exit 0. `FramesSent`, `VerdictRule` and `TransmitFailures` characterise it |
| `ModeSwitch.Expected` | NEO_Config.c:109-287 | A frame is sent only when the options are accepted and the session set-up succeeded. A verdict comes only with exit 0, and every exit code is 0 or 1 |
| `ModeSwitch.SelectApplet` | NEO_Config.c:214-241 | The command buffer becomes the SELECT frame over its old tail, and that frame is sent. On success the reply buffer is the reply over the old buffer, the shown fields are `Show` of it, and `firstSeq` is its byte 3; on failure the buffer is unchanged and nothing is shown |
| `ModeSwitch.WriteDeviceConfig` | NEO_Config.c:256-279 | The command buffer becomes the write frame over its old tail, and that frame is sent. On success the reply buffer is the reply over the old buffer and the returned `pgmSeq` is its byte 3; on failure the reply buffer is unchanged and there is none |
| `ModeSwitch.Converse` | NEO_Config.c:214-279 | The two exchanges on the in-place buffers produce the trace `Exchange` |
| `ModeSwitch.RunProgram` | NEO_Config.c:109-287 | `main` produces the trace `Expected` |
| `ModeSwitch.RejectedOptionsSendNothing` | NEO_Config.c:139-177 | Options that are not accepted send no frame and show, answer and judge nothing; the exit is 1 exactly when the first option other than `-v`/`-y` is a rejected `-m` |
| `ModeSwitch.SetupFailureSendsNothing` | NEO_Config.c:181-212 | With accepted options, a failed context, reader list or connect exits 1 before any frame |
| `ModeSwitch.FramesSent` | NEO_Config.c:214-268 | With a session, the SELECT frame is sent first. With a defined commit answer the fixed write frame follows, whatever the answer or the requested mode; with an undefined one only the SELECT is sent |
| `ModeSwitch.VerdictRule` | NEO_Config.c:227-277 | With both transmits successful the exit is 0, the shown `pgmSeq` is the first reply's byte 3 (or the buffer's), and the update is "successful" iff the second `pgmSeq` equals the first plus one as an `int` |
| `ModeSwitch.TransmitFailures` | NEO_Config.c:240-286 | A failed write transmit still exits 0 with no verdict; a write reply after a failed SELECT is undefined (uninitialised `firstSeq`) |
| `ModeSwitch.EndToEndExample` | NEO_Config.c:214-277 | SELECT reply with `pgmSeq` 3 and mode 0x02, options `-y -m 01`, write reply with `pgmSeq` 4: two frames are sent, answer "yes", mode 0x02 shown, update reported successful |

## Left out

- PC/SC calls (`SCardEstablishContext`, `SCardListReaders`, `SCardConnect`, `SCardTransmit`, `SCardDisconnect`, `SCardReleaseContext`): foreign library I/O. The set-up calls are four success flags (`Setup`). Each transmit is failure or the received bytes (`Transmit`). A failed transmit is taken to leave the reply buffer unchanged. The only later read of it (line 275, after a failed SELECT and a short write reply) is on a path that is undefined at line 276, where the uninitialised `firstSeq` is read. Disconnect and release have no modelled effect.
- The clamp of the reader-name length to 1024 bytes (lines 194-195): the reader name is part of the transport, which is abstract here.
- `dumpHex` (lines 64-91): diagnostic output that depends on the locale through `isprint`.
- `getopt`, `fgets` and the prompt text: their results are inputs (the option sequence, and the line `fgets` stored or its failure). The usage, error and report texts are not modelled. The trace records the fields printed and the verdict instead.
- Signed `char`: option characters of 0x80 and above are taken with non-negative codes.
- The values of the header constants and the record layouts: they are parameters and stated assumptions, because the headers are not part of this model.
- Structure padding and alignment: the records are taken byte-packed, as stated above. The model does not cover a compiler that pads them.

- `Apdu.BuildWriteConfig`: it writes the DEVICE_CONFIG record's serialised bytes in one step, where the source stores its three fields one by one through the overlaid record. The resulting buffer is the same.
- `ModeSwitch.RunProgram`: it stops at the first undefined behaviour and records only the frames sent before it. Behaviour after that point is not modelled.
