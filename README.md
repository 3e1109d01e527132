# pyCrafter4500: a verified model of the DLPC350 command codec

pyCrafter4500 drives the DLPC350 controller of the TI LightCrafter 4500
projector over USB. This project models the part of the library that turns
typed projector calls into bytes on the wire. The model has four layers, one
Dafny module each:

- **BitCodec** (`bitcodec.dfy`) models `conv_len` and `bits_to_bytes` on
  binary strings of digits, as `seq<bool>`. It proves their lengths, that
  they keep values, their big-endian and little-endian readings, and the
  reversal.
- **BitText** (`bittext.dfy`) models the same two helpers on the characters
  Python really handles. `bin(a)[2:]` of a negative a is "b" followed by the
  digits of -a, because slicing drops only the "-0" of "-0b". `int(g, 2)`
  reads a group of digits, and also a group of "0b" and digits; any other
  group raises. `bits_to_bytes` is a method with its loop, proved against the
  function `TextToBytes`, which is None where the source raises. On digit
  strings `TextToBytes` agrees with `BitCodec.ToBytes`.
- **Wire** (`wire.dfy`) gives the 6-byte command header and the packets of
  one command as functions. It proves packet sizes, packet counts, the
  64/65-byte boundary and reassembly. **Usb** (`usb.dfy`) is the device: a
  class whose `Write` appends to a packet log and whose `Read` pops scripted
  replies. A reply that does not arrive stands for `USBError`.
- **Controller** (`controller.dfy`) is the `dlpc350` class. Its `Command`
  method follows the framer's loops step by step: the header, the
  single-packet branch, the first packet, the `j` counter with its `j % 64`
  flushes, the zero padding and the reply read. It is proved to write exactly
  `Packets(frame)` and to update `ans` as a read does. Every catalog method
  issues the command that **Catalog** (`catalog.dfy`) assigns to its call.
  Catalog gives each of those commands as a pure payload function with its
  byte layout proved.
- **Orchestration** (`orchestration.dfy`) models `pattern_mode`,
  `video_mode`, `power_down`, `power_up` and `set_gamma`. Each is a method on
  a controller. Each is proved to issue exactly the commands of its call list,
  and to stop at the first call that raises. Lemmas fix the 17-call order,
  the three LUT entries, the commands sent with the defaults, and the
  single-packet framing within field widths.

`lcr4500.py` is the older copy of the same module. Its helpers, framer,
payload builders and orchestrators are textually the same as the package's,
so one model covers both. The `## Model` table cites the package's lines.
The matching spans of `lcr4500.py` are:

- `conv_len` 21-32, `bits_to_bytes` 35-55 and `fps_to_period` 58-64;
- `__init__` 91-97 and `command` 99-180, with the header at 119-133, the
  single-packet path at 135-144, the multi-packet path at 146-168 and the
  reply read at 174-178;
- the payload builders from `set_power_mode` at 189-200 to
  `send_pattern_lut` at 345-428;
- `pattern_mode` 431-498, `video_mode` 501-508, `power_down` 511-514 and
  `power_up` 517-519. `Orchestration.LegacyHelpers` shows
that the four shared helpers use only operations both classes have. The older
class lacks `get_main_status`, `set_dmd_park`, `set_buffer_freeze` and
`set_gamma_correction`.

Raised exceptions are modelled as values:

- `Encode(c)` is `None` for a call the library cannot send. This happens for
  a mode name that is not in its table, and for a mode or action number
  outside 0..255 (`Catalog.Selected`). Both make the USB write fail: the
  first because pyusb cannot make a buffer of a list holding a string, the
  second because pyusb turns the list into unsigned bytes before any
  transfer and rejects such a value. It also happens in `set_pattern_config` when a count is from -30 to 0. Then
  count - 1 renders as "b" and digits, with the "b" past the second
  character of its 8-character group, and `int(_, 2)` raises. A count from
  -62 to -31 renders as "0b" and six digits, which `int(_, 2)` accepts, so
  the device receives |count - 1| (`Catalog.CountField`).
- `Emitted(calls)` is the commands of the calls up to the first such call.
- A rejected bit depth or an `fps` of 0 sends nothing at all.

Facts about the code that its docstrings do not make plain:

- `set_pattern_config(3, True, 3, 0)` encodes to `[2, 1, 2, 0]`. The
  exposure payload sends the exposure first, as 4 little-endian bytes.
- The first LUT slot of `pattern_mode` uses trigger type 1, the other two
  trigger type 3.
- `get_main_status` reads with selector 0x1A/0x0C. Its docstring names CMD2
  0x02.
- Mode names are not validated: a number passes through. No bit-width check
  happens before encoding, so a value wider than its field widens the
  payload.

## Model

| member | source | states |
|---|---|---|
| BitCodec.ConvLenValue | pycrafter4500/pycrafter4500.py:28-40 | reading `conv_len(a, l)` in base 2 gives back a, for every l |
| BitCodec.ConvLenLength | pycrafter4500/pycrafter4500.py:37-40 | the result has max(l, len(bin(a))) digits: exactly l iff l >= 1 and a < 2^l, and more than l when a >= 2^l (no truncation) |
| BitCodec.ConvLenInverse | pycrafter4500/pycrafter4500.py:28-40 | every non-empty binary string is `conv_len` of its own value at its own length |
| BitCodec.ConvLenDigit | pycrafter4500/pycrafter4500.py:28-40 | digit i from the right of `conv_len(a, l)` is bit i of a |
| BitCodec.ReverseIndex | pycrafter4500/pycrafter4500.py:63-64 | element i of the reversed list is element len-1-i of the input |
| BitCodec.ReverseReverse | pycrafter4500/pycrafter4500.py:63-64 | reversing twice gives the list back |
| BitText.BitsToBytes | pycrafter4500/pycrafter4500.py:43-65 | the padding, the loop of `int(_, 2)` over whole 8-character groups and the optional reverse return exactly `TextToBytes(a, reverse)`, None as soon as one group raises |
| BitText.DigitsToBytes | pycrafter4500/pycrafter4500.py:43-65 | on a string of digits `bits_to_bytes` never raises and returns `ToBytes(s, reverse)` |
| BitText.RenderDigits | pycrafter4500/pycrafter4500.py:28-40 | a rendered binary string consists of digits and reads back as the same bits |
| BitText.UnrenderRender | pycrafter4500/pycrafter4500.py:43-65 | a string of digits is the rendering of the bits it spells |
| BitText.ConvLenTextDigits | pycrafter4500/pycrafter4500.py:28-40 | for a >= 0, `conv_len(a, l)` on characters is the rendering of the binary `conv_len(a, l)` |
| BitText.DigitGroup | pycrafter4500/pycrafter4500.py:60-61 | `int(g, 2)` of a non-empty digit string is its binary value |
| BitText.PrefixedGroup | pycrafter4500/pycrafter4500.py:60-61 | `int("0b" + g, 2)` of digits g is the value of g |
| BitText.StrayB | pycrafter4500/pycrafter4500.py:60-61 | a 'b' anywhere but the second character makes `int(_, 2)` raise |
| BitText.NegativeGroup | pycrafter4500/pycrafter4500.py:37-40 | z zeros, then 'b', then digits d, is z + 1 + len(d) long and reads as the value of d iff z = 1, otherwise it raises |
| BitText.TextGroupsAppend | pycrafter4500/pycrafter4500.py:59-61 | after whole groups p, the loop over p + q reads p's groups then q's, and raises iff either part raises |
| BitText.TextGroupsPrefix | pycrafter4500/pycrafter4500.py:59-61 | if the first j groups raise, the whole loop raises |
| BitText.GroupFails | pycrafter4500/pycrafter4500.py:59-61 | one group that raises, after whole groups, makes the loop raise whatever follows it |
| BitText.TextGroupsDigits | pycrafter4500/pycrafter4500.py:59-61 | on a whole-byte digit string the loop reads exactly the groups of `BitCodec.Groups` |
| BitText.FourFields | pycrafter4500/pycrafter4500.py:43-65 | four 8-character fields give the four readings in reverse order iff each field reads, and raise otherwise |
| BitText.PadAppend | pycrafter4500/pycrafter4500.py:53-56 | padding a string followed by whole groups e pads only the front part and leaves e in place |
| BitText.TextToBytesAreBytes | pycrafter4500/pycrafter4500.py:43-65 | every value `bits_to_bytes` returns is below 256 |
| BitCodec.ToBytesShape | pycrafter4500/pycrafter4500.py:43-65 | ceil(len(a)/8) values, each 0..255; the unreversed values rendered in 8 digits give `a` left-padded with fewer than 8 zeros; the reversed list is the reverse of the unreversed one |
| BitCodec.ToBytesValue | pycrafter4500/pycrafter4500.py:43-65 | the unreversed list read big-endian, and the reversed list read little-endian, both equal `int(a, 2)` |
| BitCodec.GroupsShape | pycrafter4500/pycrafter4500.py:59-61 | a whole-byte string yields len/8 groups, each below 256 |
| BitCodec.GroupsRender | pycrafter4500/pycrafter4500.py:59-61 | rendering the groups in 8 digits each gives the string back |
| BitCodec.GroupsBigEndian | pycrafter4500/pycrafter4500.py:59-61 | the groups read big-endian base 256 equal the string's binary value |
| BitCodec.ReverseLittleEndian | pycrafter4500/pycrafter4500.py:63-64 | a reversed list read little-endian equals the list read big-endian |
| BitCodec.LittleEndianForm | pycrafter4500/pycrafter4500.py:43-65 | for a < 2^(8k), the k-byte little-endian form has k bytes whose little-endian reading is a |
| BitCodec.LittleEndianInjective | pycrafter4500/pycrafter4500.py:43-65 | byte lists of equal length with equal little-endian readings are equal |
| BitCodec.ConvLenLittleEndian | pycrafter4500/pycrafter4500.py:28-65 | `bits_to_bytes(conv_len(a, 8k))` is the k-byte little-endian form of a when a < 2^(8k) |
| BitCodec.ToBytesConcat | pycrafter4500/pycrafter4500.py:362-363 | for whole-byte strings p and q, the reversed bytes of p + q are q's reversed bytes followed by p's |
| BitCodec.LengthFieldBytes | pycrafter4500/pycrafter4500.py:135-136 | the length field `bits_to_bytes(conv_len(v, 16))` is [v mod 256, v div 256] for v < 2^16 |
| Orchestration.FpsToPeriod | pycrafter4500/pycrafter4500.py:68-77 | the period is the largest p with p * fps <= 10^6, so it is floor(10^6 / fps) |
| Orchestration.DefaultPeriod | pycrafter4500/pycrafter4500.py:531 | the default period for 222 frames per second is 4504 microseconds |
| Wire.ContinuationsShape | pycrafter4500/pycrafter4500.py:162-177 | ceil(len/64) continuation packets, each 64 bytes, which laid end to end are the rest of the payload followed by fewer than 64 zeros |
| Wire.ContinuationsAppend | pycrafter4500/pycrafter4500.py:164-170 | a cut at a multiple of 64 splits the continuation packets in two |
| Wire.PacketsFull | pycrafter4500/pycrafter4500.py:144-177 | every packet written for a command is exactly 64 bytes |
| Wire.PacketCount | pycrafter4500/pycrafter4500.py:144-177 | one packet iff len(data) <= 58, otherwise 1 + ceil((len(data) - 58) / 64) |
| Wire.FirstPacket | pycrafter4500/pycrafter4500.py:128-160 | the first packet begins [flag 0xC0 for a read or 0x40 otherwise, sequence byte, (len+2) low byte, (len+2) high byte, com2, com1], followed by the whole payload and zeros for a short one or by its first 58 bytes for a long one |
| Wire.Reassembly | pycrafter4500/pycrafter4500.py:144-177 | the packets laid end to end are the header, then the whole payload in order, then fewer than 64 zero bytes |
| Wire.FramingBoundary | pycrafter4500/pycrafter4500.py:145 | 64 bytes of header and payload still take one packet; 65 take two, the second starting at payload offset 58 |
| Wire.TransmitAppend | pycrafter4500/pycrafter4500.py:153-177 | the packets of two command runs are the packets of the first run followed by those of the second |
| Wire.TransmitSingle | pycrafter4500/pycrafter4500.py:144-153 | commands with at most 58 payload bytes take one packet each, in command order |
| Usb.Device.Write | pycrafter4500/pycrafter4500.py:153 | a write appends its buffer to the packet log and leaves the pending replies alone |
| Usb.Device.Read | pycrafter4500/pycrafter4500.py:183-187 | a read takes the next reply off the queue, or yields none when no reply arrives |
| Usb.LastAnswerAdd | pycrafter4500/pycrafter4500.py:183-187 | m reads and then n reads leave the answer that m + n reads leave |
| Usb.LastAnswerIsReply | pycrafter4500/pycrafter4500.py:183-187 | an answer left by reads of 64-byte replies is itself a 64-byte reply |
| Controller.IssuedCompose | pycrafter4500/pycrafter4500.py:112-189 | issuing the commands a and then the commands b is issuing a + b: history, packet log, reply queue and answer all compose |
| Controller.Dlpc350.constructor | pycrafter4500/pycrafter4500.py:104-110 | a new controller holds its device, has no answer yet and has issued nothing |
| Controller.Dlpc350.Command | pycrafter4500/pycrafter4500.py:112-189 | one command is recorded, exactly `Packets(frame)` is appended to the device log, one reply is consumed, and `ans` becomes that reply if it arrived and is kept otherwise |
| Controller.Dlpc350.FrameHeader | pycrafter4500/pycrafter4500.py:128-142 | the buffer built before the payload is `Header(frame)`: flag, sequence byte, little-endian length field, com2, com1 |
| Controller.Dlpc350.WriteSingle | pycrafter4500/pycrafter4500.py:144-153 | the two loops build header + data + zeros up to 64 bytes, and exactly that buffer is written |
| Controller.Dlpc350.WriteFirst | pycrafter4500/pycrafter4500.py:155-161 | the first packet of a long command is the header and the first 58 payload bytes |
| Controller.Dlpc350.WriteSlices | pycrafter4500/pycrafter4500.py:163-170 | the `while j < len(data) - 58` loop ends with j = len(data) - 58, has written every completed 64-byte slice of the rest, and holds the j mod 64 bytes of the last partial slice |
| Controller.Dlpc350.WriteContinuations | pycrafter4500/pycrafter4500.py:162-177 | the continuation part writes exactly `Continuations(data[58..])`, the last partial slice zero-padded to 64 bytes |
| Controller.Dlpc350.GetMainStatus | pycrafter4500/pycrafter4500.py:198-211 | issues the read 0x1A/0x0C with no payload, and the status is the decoding of byte 4 of the answer |
| Controller.Dlpc350.SetPowerMode | pycrafter4500/pycrafter4500.py:213-226 | issues exactly the command of `SetPowerMode(doStandby)` |
| Controller.Dlpc350.StartPatternLutValidate | pycrafter4500/pycrafter4500.py:228-235 | issues exactly the validation command |
| Controller.Dlpc350.SetDmdPark | pycrafter4500/pycrafter4500.py:237-247 | issues exactly the park command |
| Controller.Dlpc350.SetBufferFreeze | pycrafter4500/pycrafter4500.py:249-258 | issues exactly the freeze command |
| Controller.Dlpc350.SendSelected | pycrafter4500/pycrafter4500.py:270-274 | sends the one-byte selection iff the mode maps to a byte; when it does not, nothing changes |
| Controller.Dlpc350.SetDisplayMode | pycrafter4500/pycrafter4500.py:260-274 | reports whether the command was sent, which holds iff the call encodes, and issues exactly the commands `Emitted([call])` |
| Controller.Dlpc350.SetPatternInputSource | pycrafter4500/pycrafter4500.py:276-290 | as for the display mode, with the input source table |
| Controller.Dlpc350.SetPatternTriggerMode | pycrafter4500/pycrafter4500.py:292-305 | as for the display mode, with the trigger table |
| Controller.Dlpc350.SetGammaCorrection | pycrafter4500/pycrafter4500.py:307-323 | issues exactly the gamma command |
| Controller.Dlpc350.PatternDisplay | pycrafter4500/pycrafter4500.py:325-343 | as for the display mode, with the action table |
| Controller.Dlpc350.SetExposureFramePeriod | pycrafter4500/pycrafter4500.py:345-365 | issues exactly the exposure and frame period command |
| Controller.Dlpc350.SetPatternConfig | pycrafter4500/pycrafter4500.py:367-399 | builds the four character fields and calls `bits_to_bytes`; reports whether the command was sent, which holds iff the call encodes, and issues exactly `Emitted([call])` |
| Controller.Dlpc350.MailboxSetAddress | pycrafter4500/pycrafter4500.py:401-410 | issues exactly the mailbox address command |
| Controller.Dlpc350.OpenMailbox | pycrafter4500/pycrafter4500.py:412-426 | issues exactly the open mailbox command |
| Controller.Dlpc350.SendPatternLut | pycrafter4500/pycrafter4500.py:428-524 | issues exactly the LUT entry command |
| Catalog.IndexOf | pycrafter4500/pycrafter4500.py:270-272 | `names.index(s)` is the first position that holds s |
| Catalog.ModeIndex | pycrafter4500/pycrafter4500.py:270-274 | a number passes through unchanged; a name maps iff it is listed, and then to its first index |
| Catalog.ModeNames | pycrafter4500/pycrafter4500.py:270-343 | video maps to 0 and pattern to 1; video to 0, the empty name to 1 and flash to 3; vsync to 0; stop to 0, pause to 1 and start to 2 |
| Catalog.ByteFieldPayload | pycrafter4500/pycrafter4500.py:409-410 | `bits_to_bytes(conv_len(v, 8))` is bytes reading little-endian as v; it is one byte, exactly [v], iff v < 256 |
| Catalog.GammaPayload | pycrafter4500/pycrafter4500.py:319-323 | the gamma payload is [0x80] to apply gamma and [0x00] otherwise |
| Catalog.ExposureFramePeriodPayload | pycrafter4500/pycrafter4500.py:359-365 | for 32-bit values: the exposure as 4 little-endian bytes, then the frame period as 4; the payload reads little-endian as exposure + frame * 2^32 |
| Catalog.NegativeText | pycrafter4500/pycrafter4500.py:28-40 | for -64 < a < 0, `conv_len(a, 8)` is 8 characters: zeros, 'b', the digits of -a; `'0' + conv_len(a, 7)` is the same string |
| Catalog.NegativeField | pycrafter4500/pycrafter4500.py:28-40 | for -64 < a < 0, `int(conv_len(a, 8), 2)` is -a when a <= -32 and raises otherwise |
| Catalog.EntriesField | pycrafter4500/pycrafter4500.py:391 | for -62 <= n <= 128 the entries field is 8 characters, and reads as `CountField(n)` iff n >= 1 or n <= -31, otherwise it raises |
| Catalog.PatsField | pycrafter4500/pycrafter4500.py:393 | the same for the TRIG_OUT_2 field, for -62 <= p <= 256 |
| Catalog.RepeatField | pycrafter4500/pycrafter4500.py:392 | the repeat field is 8 characters reading as int(do_repeat) |
| Catalog.ImagesField | pycrafter4500/pycrafter4500.py:394 | for images below 64 the images field is 8 characters reading as the count |
| Catalog.PatternConfigCounts | pycrafter4500/pycrafter4500.py:391-399 | within the field widths the payload exists iff both counts read (>= 1 or <= -31), and is then [`CountField(entries)`, int(repeat), `CountField(pats)`, images] |
| Catalog.PatternConfigNegative | pycrafter4500/pycrafter4500.py:391-399 | `set_pattern_config(-40, True, 3, 0)` goes through and sends [41, 1, 2, 0] |
| Catalog.EntriesRaise | pycrafter4500/pycrafter4500.py:391-397 | a LUT-entry count from -30 to 0 makes `set_pattern_config` raise whatever the other arguments are |
| Catalog.PatternConfigDefaults | pycrafter4500/pycrafter4500.py:367-399 | the defaults (3, True, 3, 0) give [2, 1, 2, 0] |
| Catalog.PatternLutLayout | pycrafter4500/pycrafter4500.py:501-522 | the three fields each fill one byte when within their widths |
| Catalog.PatternLutPayload | pycrafter4500/pycrafter4500.py:501-524 | within the widths the payload is [pat_num*4 + trig_type, led_select*16 + bit_depth, trig_out_prev*8 + buf_swap*4 + insert_black*2 + invert] |
| Catalog.PatternLutExample | pycrafter4500/pycrafter4500.py:501-524 | trigger 1, pattern 0, depth 7, all LEDs and no flags give [0x01, 0x77, 0x00] |
| Catalog.EncodeHeader | pycrafter4500/pycrafter4500.py:198-524 | every command has sequence byte 0 and its operation's selector pair, only the status query reads, and the payload is bytes |
| Catalog.SelectorsDistinct | pycrafter4500/pycrafter4500.py:198-524 | two calls share a selector pair iff they are the same operation |
| Catalog.EmittedPrefix | pycrafter4500/pycrafter4500.py:551-605 | the commands sent are those of the longest prefix of calls that encode: all calls iff all encode, otherwise stopping at one that does not |
| Catalog.EmittedAppend | pycrafter4500/pycrafter4500.py:551-605 | two runs of calls send the first run's commands, then the second run's only if every call of the first went through |
| Catalog.DecodeMainStatus | pycrafter4500/pycrafter4500.py:206-211 | parked, sequencer running, buffer frozen and gamma enabled are bits 0, 1, 2 and 3 of status byte 4 |
| Orchestration.PatternSetup | pycrafter4500/pycrafter4500.py:554-577 | the first seven calls issue exactly their emitted commands, and report success iff all of them encode |
| Orchestration.WriteLut | pycrafter4500/pycrafter4500.py:585-595 | the `for i in range(3)` loop issues exactly the commands of the three (address, entry) pairs |
| Orchestration.PatternFinish | pycrafter4500/pycrafter4500.py:597-605 | closing the mailbox, validating and starting twice always encode, and their commands are issued |
| Orchestration.PatternMode | pycrafter4500/pycrafter4500.py:527-605 | the commands issued are `PatternModeTrace`: nothing for fps 0 or a bit depth outside {1, 2, 4, 7, 8}, otherwise the 17 calls' commands up to the first that raises; the result is true iff all 17 went through |
| Orchestration.VideoMode | pycrafter4500/pycrafter4500.py:608-614 | issues the commands of stop, then display mode video |
| Orchestration.PowerDown | pycrafter4500/pycrafter4500.py:617-623 | issues the commands of stop, then standby |
| Orchestration.PowerUp | pycrafter4500/pycrafter4500.py:626-631 | issues the command of normal power mode |
| Orchestration.SetGamma | pycrafter4500/pycrafter4500.py:634-640 | issues the gamma command then the status read, and returns the flags decoded from byte 4 of the answer |
| Orchestration.LutCallsAt | pycrafter4500/pycrafter4500.py:585-595 | n loop rounds make 2n calls: round i sets address i, then writes the entry with trigger type 1 for i = 0 and 3 otherwise and pattern `bit_map[bit_depth][i]` |
| Orchestration.LutEncodes | pycrafter4500/pycrafter4500.py:585-595 | no call of the LUT loop raises |
| Orchestration.PatternModeOrder | pycrafter4500/pycrafter4500.py:548-605 | exactly 17 calls: stop, display mode, input source, config (num_pats, repeat, num_pats, 0), trigger mode, exposure (period, period), open mailbox 2, three (address i, entry i) pairs, open mailbox 0, validate, start, start |
| Orchestration.ThreeLutEntries | pycrafter4500/pycrafter4500.py:564-595 | LUT entries are written at positions 8, 10 and 12 and nowhere else, whatever num_pats the configuration announced |
| Orchestration.InRangeShort | pycrafter4500/pycrafter4500.py:213-524 | a call whose arguments fit their fields sends at most 8 payload bytes and is sendable |
| Orchestration.LutInRange | pycrafter4500/pycrafter4500.py:579-595 | with a 4-bit LED selection, every LUT call's arguments fit their fields |
| Orchestration.PatternModeInRange | pycrafter4500/pycrafter4500.py:548-605 | with -62 to 128 patterns, a 32-bit period and a 4-bit LED selection, every argument of the 17 calls fits its field |
| Orchestration.PatternModeSinglePackets | pycrafter4500/pycrafter4500.py:144-153 | under those bounds `pattern_mode` is sendable and each command it sends goes out as exactly one packet, in command order |
| Orchestration.EncodeConfig | pycrafter4500/pycrafter4500.py:391-399 | within the widths the configuration command goes out iff both counts read, and then sends [`CountField(n)`, int(r), `CountField(p)`, k] under 0x1A/0x31 |
| Orchestration.NegativePatsConfig | pycrafter4500/pycrafter4500.py:391-399 | the configuration call of `pattern_mode(num_pats=-31)` sends [32, 1, 32, 0] under 0x1A/0x31 |
| Orchestration.EmittedSnoc | pycrafter4500/pycrafter4500.py:551-605 | one more call that encodes, after a run that all encode, adds exactly its command |
| Orchestration.DefaultSetup | pycrafter4500/pycrafter4500.py:527-577 | with the defaults, the first seven commands are `[0]`@0x24, `[1]`@0x1B, `[0]`@0x22, `[2,1,2,0]`@0x31, `[0]`@0x23, `[0x98,0x11,0,0,0x98,0x11,0,0]`@0x29 and `[2]`@0x33 |
| Orchestration.DefaultLut | pycrafter4500/pycrafter4500.py:579-595 | at depth 7 with all LEDs, the LUT loop sends addresses 0, 1 and 2 with the entries [0x01,0x77,0], [0x07,0x77,0] and [0x0B,0x77,0] |
| Orchestration.FinishTrace | pycrafter4500/pycrafter4500.py:597-605 | the last four commands are `[0]`@0x33, `[0]`@0x1A, `[2]`@0x24 and `[2]`@0x24 |
| Orchestration.DefaultPatternMode | pycrafter4500/pycrafter4500.py:527-605 | `pattern_mode()` with its defaults sends exactly those 17 commands, with the default period and also with `fps=222` |
| Orchestration.VideoModeTrace | pycrafter4500/pycrafter4500.py:608-614 | `video_mode` sends [0] under 0x1A/0x24, then [0] under 0x1A/0x1B |
| Orchestration.PowerDownTrace | pycrafter4500/pycrafter4500.py:617-623 | `power_down` sends [0] under 0x1A/0x24, then [1] under 0x02/0x00 |
| Orchestration.PowerUpTrace | pycrafter4500/pycrafter4500.py:626-631 | `power_up` sends [0] under 0x02/0x00 |
| Orchestration.SetGammaTrace | pycrafter4500/pycrafter4500.py:634-640 | `set_gamma` writes [0x80] or [0x00] under 0x1A/0x0E, then reads 0x1A/0x0C with no payload |
| Orchestration.LegacyHelpers | lcr4500.py:431-519 | `pattern_mode`, `video_mode`, `power_down` and `power_up` use none of the four operations the older class lacks |

## Left out

- USB discovery and lifetime are not modelled: `connect_usb`, `usb.core.find`, `set_configuration` and `device.reset`. The controller is passed to each helper instead of being opened inside it.
- `print` output is not modelled: the `USBError` message, `read_reply` and the `pretty_print` text of `get_main_status`. The status flags are returned as a value instead.
- `time.sleep` is timing only and has no model.
- `fps_to_period` computes `floor(1.0 / fps * 10**6)` in floating point. The model uses the exact integer floor for a natural `fps`. Floating-point rounding and non-integer `fps` are not modelled.
- Keyword arguments other than `fps` are ignored by `pattern_mode` and are not modelled.
- Exceptions are not modelled as control flow. The model only records that a call which raises sends nothing and that the calls after it are not made. The failed `assert` on the bit depth and division by a zero `fps` are modelled the same way: nothing is sent and `PatternMode` returns false.
- Most field values are natural numbers in the model. The one place where non-negative arguments yield a negative rendering is the counts of `set_pattern_config` minus one. It is modelled on characters in `BitText`, with the 'b' that `bin(a)[2:]` leaves.
- Controller.Dlpc350.SetExposureFramePeriod, Controller.Dlpc350.MailboxSetAddress, Controller.Dlpc350.OpenMailbox, Controller.Dlpc350.SendPatternLut, Orchestration.PatternMode: take natural numbers, so negative arguments are not modelled. In the source a negative exposure, frame period, mailbox address or number, or LUT field renders with a 'b' that `int(_, 2)` rejects, for example `conv_len(-1, 8)` = '000000b1', and the call raises. A negative `fps` for `pattern_mode` gives a negative period. The source then sends the first five commands and raises at `set_exposure_frame_period`.
- Catalog.PatternConfigCounts, Orchestration.EncodeConfig: characterize the payload only for counts from -62 up to the field widths (128 LUT entries, 256 patterns) and for 0 to 63 images. Outside these bounds `Encode` still computes the source's result, but no lemma describes it. A value that is too wide adds characters, and then the later fields no longer line up with the byte boundaries.
- Orchestration.InRange, Orchestration.PatternModeInRange, Orchestration.PatternModeSinglePackets: cover pattern counts from -62 up, the range where the payload is characterized.
- Controller.Dlpc350.Command: requires a payload shorter than 65534 bytes. For longer payloads the source's length field grows to three bytes and the header to seven, and the model does not follow it there.
- Controller.Dlpc350.SetExposureFramePeriod, Controller.Dlpc350.SetPatternConfig, Controller.Dlpc350.MailboxSetAddress, Controller.Dlpc350.OpenMailbox, Controller.Dlpc350.SendPatternLut: require their payload to be short enough for the 16-bit length field, which the source does not check. `Orchestration.InRangeShort` shows that any argument within its field width meets this.
- Controller.Dlpc350.FrameHeader: requires the length field to fit 16 bits, as `Command` does.
- Orchestration.PatternSetup, Orchestration.WriteLut: require their calls to be sendable in the same sense. `PatternMode`, their only caller, meets this through its own requires.
- Orchestration.PatternMode: requires the 17 calls to be sendable in the same sense. `Orchestration.PatternModeSinglePackets` discharges this for -62 to 128 patterns, a 32-bit period and a 4-bit LED selection.
- `bits_to_bytes` reverses its list in place. The model reverses it with the function `BitCodec.Reverse`. `BitText.IntBase2` follows `int(_, 2)` on strings of '0', '1' and 'b', the only characters the library passes it. Other forms Python also accepts, such as surrounding spaces, underscores, a sign or a capital 'B', are read as raising.
- The unused local variable of `set_buffer_freeze` is not modelled. Its payload is `[int(freeze)]`, which is the byte USB receives for `[freeze]`.
- A new controller has no `ans` attribute until its first read succeeds. The model represents this as `ans == None`.
- Controller.Dlpc350.GetMainStatus: when no read has succeeded yet, `self.ans[4]` raises AttributeError in the source. This happens in `set_gamma`, which always pretty-prints. The model issues the same packets and returns None instead of raising. The model always decodes the flags, which the source does only when `pretty_print` is set.
- Orchestration.SetGamma: returns None where the source raises that AttributeError. This is exact only for a controller with no answer yet. The source's `set_gamma` opens a fresh controller, but the model takes a shared one. If both reads fail, the model therefore decodes an older answer left by an earlier helper, where the source raises.
- setup.py is packaging metadata and is not part of this model.
