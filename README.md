# zxvnc in Dafny

zxvnc shows a VNC desktop on a ZX Spectrum. It has two programs.

The host program (`zxvnc.c`) converts each remote frame into a Spectrum screen:

- `apply_tweak` refreshes the update rectangle of the working image `post` (256x192 YUV pixels).
- `pickattrs` picks, for every 8x8 tile (8x1 in Timex mode), the attribute byte whose ink and paper fit the tile best.
- `dither` turns `post` into a one-bit-per-pixel plane `npx`, by error diffusion confined to the two colours of each tile.
- `writescr` packs `npx`, the attributes and, in ULA+ mode, the palette into the Spectrum's interleaved display file.
- `handleSpectrumEvent` turns the 6-byte input records that arrive from the Spectrum into VNC key and pointer events.

The Spectrum program (`spectrum.c`) has three parts modelled here:

- an 8-slot circular keyboard buffer, filled by the interrupt routine `isr` and drained by `getSingleKeypress`;
- a decoder for 3-byte poke records (a little-endian address, then a value), with leftover bytes carried to the next receive;
- the sender of the 6-byte input record, which sends only when the sample changed.

## How the model is organised

There is one module per component:

- `Bytes`: machine integer ranges.
- `Colour`: `zxtorgb`, `clamp`, `htweak`, `yuvdist` and the ink/paper lookup.
- `Frame`: screen size, render flags and `apply_tweak`.
- `Attrs`: `pickattrs`.
- `Dither`: `dither`.
- `Packer`: `writescr`.
- `HostEvents`: `handleSpectrumEvent`.
- `KeyBuffer`: the keyboard ring.
- `Pokes`: the poke decoder.
- `Telemetry`: the input record on the wire and its sender.

Code that loops over arrays is modelled by methods over Dafny arrays. Each such method is proved against a specification function. This covers `apply_tweak`, `pickattrs`, `dither`, `writescr`, the keyboard buffer and the poke loop.

The host's globals `post`, `pal`, `npx`, `display` and `palent` become array parameters. For `post`, `pal`, `npx` and `palent` the commented-out signatures in the source pass them the same way. `display` is a plain global there, since the commented-out `writescr` signature (zxvnc.c:451) takes a `FILE *` instead.

State that persists between calls becomes a class with fields:

- the handler's static `old` record;
- `kbuf` and its two offsets;
- `bufor` and `pos`;
- `send_buffer`.

Calls the model cannot see become parameters:

- the framebuffer read `get` is `fb`;
- the floating-point per-pixel pipeline is `transform`;
- `in_GetKey` and `in_MouseKemp` are the arguments of `Isr` and `Poll`;
- what `recv` returns is `data`;
- how many bytes `send` accepts is `accepts`.

Sent VNC events, applied pokes and transmitted bytes are appended to logs.

The dither specification `Work(s, x, y)` is the working copy just before pixel (x, y) is processed, in column-major order. `Dither.Dither` is proved to store exactly the decisions it implies.

Two reads in `dither` take `post` instead of the working copy:

- the right neighbour on row 0 (zxvnc.c:350);
- the down-right neighbour (zxvnc.c:352).

`Dither.QuirkReadsAgree` proves that both reads see the value the working copy holds at that moment. The quirks are therefore harmless.

## Model

| member | source | states |
|---|---|---|
| Colour.ZxToRgb | zxvnc.c:58-69 | bit 1 lights red, bit 2 green and bit 0 blue. A lit channel is 240 when bit 3 is set, else 200. Blue gets 15 more when the code mod 8 is 1. Every channel stays at or below 255, so the `unsigned char` add never wraps |
| Colour.ZxToRgbDistinct | zxvnc.c:58-69 | two colour codes below 16 give the same RGB exactly when they are equal or both black (0 and 8) |
| Colour.Clamp | zxvnc.c:124-130 | a value in 0..255 is kept; any other value maps to the byte nearest to it |
| Colour.HTweakDefault | zxvnc.c:214-218 | the default shift 128 leaves a hue unchanged |
| Colour.HTweakCompose | zxvnc.c:214-218 | two hue shifts compose into one shift modulo 256 (the hue wraps rather than clamps) |
| Colour.HTweakUndo | zxvnc.c:214-218 | shifting by s and then by 256 - s restores the hue |
| Colour.Dist | zxvnc.c:87-91 | the distance is 0 exactly for equal triples and never exceeds 765 |
| Colour.DistMetric | zxvnc.c:87-91 | the distance is symmetric and satisfies the triangle inequality |
| Colour.InkIndex | zxvnc.c:334-338 | the ink entry `(a&7)+((a>>6)<<3)` is below 16, has the ink bits as its colour and the bright bit as its bank |
| Colour.PaperIndex | zxvnc.c:334-338 | the paper entry `((a>>3)&7)+((a>>6)<<3)` is below 16, has the paper bits as its colour and the bright bit as its bank |
| Frame.ModeOf | zxvnc.c:33-41 | the Timex, ULA+ and BW flags are bits 0, 1 and 2 of `render`; `render == 0` is the classic mode |
| Frame.ClipEnd | zxvnc.c:223-224 | the end is at most the limit. Without 32-bit overflow it is `min(start + len, limit)`. With overflow it falls before the start, so nothing is refreshed |
| Frame.ApplyTweak | zxvnc.c:220-249 | every pixel in the clipped rectangle becomes the transform of the framebuffer pixel split into `a>>16`, `a>>8` and `a` bytes. Every other pixel of `post` keeps its value |
| Attrs.ColumnCostOf | zxvnc.c:283-289 | the `dy` loop returns the summed nearer-colour distance over one tile column (8 pixels, or 1 in Timex mode) |
| Attrs.TileCostOf | zxvnc.c:280-290 | the `dx`/`dy` loops return the summed cost of one attribute over the whole tile |
| Attrs.PickTile | zxvnc.c:267-297 | the result is a candidate (1 <= a < 128, ink `a&7` > paper `(a>>3)&7`). Its cost is at most every candidate's, and every smaller candidate costs strictly more (first minimum) |
| Attrs.BestAttrUnique | zxvnc.c:269-296 | the first minimum is unique, so the search result is determined by the tile |
| Attrs.PickAttrs | zxvnc.c:251-301 | each tile of the 32x24 grid (32x192 in Timex mode) gets 7 in BW mode and otherwise the first least-cost candidate. Plane 1 of `pal` and the rows past the grid are unchanged |
| Attrs.TwoColourTileIsFree | zxvnc.c:269-296 | a tile drawn only in the ink and paper of some candidate costs 0 under that candidate and under the chosen attribute; when both colours occur in the tile and differ, the chosen attribute's ink and paper are exactly that pair |
| Attrs.CostUpToZeroPixels | zxvnc.c:280-289 | columns that cost 0 under an attribute are drawn only in its ink and paper |
| Attrs.UniformAttr | zxvnc.c:269-279 | every colour code below 16 is the ink or paper of some candidate attribute |
| Attrs.UniformTileIsFree | zxvnc.c:269-296 | a tile of a single palette colour gets an attribute of cost 0 |
| Dither.AttrAt | zxvnc.c:318-319 | the attribute read for pixel (x, y) is `pal[x/8][TIMEX ? y : y/8][0]` and lies below 128 |
| Dither.SpreadIsExact | zxvnc.c:350-358 | the integer `(16*v - k*dy) / 16`, clamped, equals the source's `clamp(floor(v - dy*k/16.0))` evaluated on reals |
| Dither.DecisionIsNearest | zxvnc.c:340-342 | the decided colour is the nearer of ink and paper to the working pixel, and a tie goes to paper |
| Dither.Work | zxvnc.c:314-316 | specification function: the working copy before pixel (x, y) in column-major order. Its contract only keeps the 256x192 shape; its properties are the lemmas and methods below |
| Dither.StepChannelKeeps | zxvnc.c:347-358 | one channel step writes only the four neighbours and only channel j |
| Dither.DiffusedKeeps | zxvnc.c:345-359 | while pixel (x, y) spreads its error, non-neighbour cells and channels not yet reached keep their value |
| Dither.PristineBefore | zxvnc.c:314-359 | before pixel (x, y), every cell right of column x+1 still holds its `post` value. So do the cells of column x+1 below row y (the whole column when y == 0) |
| Dither.QuirkReadsAgree | zxvnc.c:350-352 | the two reads from `post` (right neighbour on row 0; down-right neighbour) see the value the working copy holds there |
| Dither.SpreadCell | zxvnc.c:350-358 | one update replaces channel j of one cell by the clamped diffused value and nothing else |
| Dither.ShareRight | zxvnc.c:348-350 | the 7/16 share to (x+1, y), taken from `post` on row 0, only when x+1 < 256 |
| Dither.ShareDiagonal | zxvnc.c:351-352 | the 1/16 share to (x+1, y+1), taken from `post`, only inside the frame |
| Dither.ShareBack | zxvnc.c:354-357 | the 3/16 share to (x-1, y+1) in the finished column, only when x > 0 and y+1 < 192 |
| Dither.ShareBelow | zxvnc.c:354-358 | the 5/16 share to (x, y+1), only when y+1 < 192 |
| Dither.SpreadChannel | zxvnc.c:347-358 | the `j` loop body leaves the array holding the specification's channel step |
| Dither.SpreadPixel | zxvnc.c:345-360 | the `j` loop leaves the array holding all three channel steps of pixel (x, y) |
| Dither.DecidePixel | zxvnc.c:318-342 | the bit computed is the specification's decision for (x, y), and the colour chosen is the tile's ink when the bit is set, else its paper |
| Dither.DitherPixel | zxvnc.c:318-360 | `npx[x][y]` becomes the decision on the working copy and the error is spread. No other `npx` entry changes |
| Dither.DitherCell | zxvnc.c:317-361 | one `y` step stores the specification's decision and advances the working copy to the next pixel |
| Dither.DitherColumn | zxvnc.c:316-361 | one `x` step stores the decisions of column x and leaves every other column of `npx` unchanged |
| Dither.Copy | zxvnc.c:313 | the working copy is a fresh array equal to `post` |
| Dither.DitherColumns | zxvnc.c:314-362 | the `x` loop stores every decision of the diffusion order |
| Dither.Dither | zxvnc.c:303-363 | for classic, Timex and BW modes, every `npx[x][y]` is the decision the column-major diffusion implies. `post` and `pal` are not modified |
| Packer.RowBound | zxvnc.c:460-466 | the row `sy` of every bitmap offset is below 192 |
| Packer.OffsetIsAddress | zxvnc.c:458-460 | for i < 0x1800 the column `i&0x1f` is below 32 and the row `sy` below 192, and the display-file offset of that pair is i again (the map is injective) |
| Packer.AddressIsOffset | zxvnc.c:458-460 | every column below 32 and row below 192 is reached by exactly the offset that names it back (the map is onto) |
| Packer.Pack | zxvnc.c:462-468 | eight bits packed most significant first give a byte |
| Packer.Unpack | zxvnc.c:462-468 | yields n bits; the round-trip lemmas with `Pack` fix which bits they are |
| Packer.UnpackPack | zxvnc.c:462-468 | unpacking a packed row gives the row back |
| Packer.PackUnpack | zxvnc.c:462-468 | packing the n bits of a value below 2^n gives the value back |
| Packer.BitmapBitIsPixel | zxvnc.c:458-470 | the guard at line 466 always holds, and bit 7-j of byte i is `npx[sx+j][sy]` |
| Packer.PixelLandsOnce | zxvnc.c:458-470 | every pixel of the screen is stored in exactly one bitmap byte, at bit 7 - (x mod 8) |
| Packer.UlaPlusFields | zxvnc.c:480 | the ULA+ attribute byte reads back ink from bits 0-2 of `pal[..][..][0]`, paper from bits 0-2 of `pal[..][..][1]` and the bank from bits 4-5 of `pal[..][..][0]` |
| Packer.AttrByteIsTile | zxvnc.c:472-487 | attribute byte i is `pal[i&0x1f][i>>5][0]` in classic and Timex modes and the ULA+ packing otherwise. The blank tile is never used |
| Packer.FrameSize | zxvnc.c:458-496 | the screen image never exceeds `display` (12288+64 bytes) and is 6912 bytes exactly in classic mode |
| Packer.Screen | zxvnc.c:449-497 | the screen image (bitmap, attributes, ULA+ palette) has the length `FrameSize` gives |
| Packer.PackByte | zxvnc.c:461-468 | the inner `j` loop computes the packed byte of the 8 pixels of offset i |
| Packer.WriteBitmap | zxvnc.c:458-470 | the first loop writes the 0x1800 bitmap bytes in order from `address` and nothing else |
| Packer.WriteAttrs | zxvnc.c:472-487 | the second loop writes the 0x300 (Timex 0x1800) attribute bytes and nothing else |
| Packer.WritePalette | zxvnc.c:489-496 | the ULA+ dump copies the 64 `palent` entries and nothing else |
| Packer.WriteScr | zxvnc.c:449-497 | `display` starts with the screen image and is unchanged past it |
| HostEvents.ButtonMask | zxvnc.c:441 | the pointer mask keeps bits 0, 1 and 2 of the button byte as Button1/2/3 and drops the rest |
| HostEvents.Synthesize | zxvnc.c:428-444 | a key change to 0 sends key-up of the old key; a change to a non-zero key sends key-down of the new key only. A pointer event with the new x, y and mask is sent exactly when x, y or the buttons changed. No key event without a key change |
| HostEvents.SilentIffRepeat | zxvnc.c:428-444 | a call sends nothing exactly when the record equals the previous one |
| HostEvents.EventHandler.constructor | zxvnc.c:426 | the previous record starts all zero and nothing has been sent |
| HostEvents.EventHandler.Handle | zxvnc.c:423-446 | the events sent are those `Synthesize` gives for the previous and new record, and `old` becomes the new record |
| HostEvents.KeyToKeyNeverReleases | zxvnc.c:428-437 | a change from one non-zero key to another never releases the old key, and the server then holds both |
| HostEvents.StuckKey | zxvnc.c:428-437 | pressing 'A', then 'B', then nothing leaves 'A' held on the server while the Spectrum reports no key |
| HostEvents.SynthesizeFixed | zxvnc.c:428-444 | the corrected handler agrees with the source except on key-to-key changes, and always leaves the server holding exactly the reported key |
| HostEvents.FixedHeldIsCurrent | zxvnc.c:423-446 | over any run of records, the corrected handler leaves the server holding exactly the last reported key |
| KeyBuffer.Unread | spectrum.c:21-23 | the unread keys are fewer than 8, and none are unread exactly when the two offsets are equal |
| KeyBuffer.Push | spectrum.c:58-67 | `isr` keeps both offsets in 0..7 |
| KeyBuffer.Pop | spectrum.c:32-51 | `getSingleKeypress` keeps both offsets in 0..7 |
| KeyBuffer.PushUnread | spectrum.c:58-67 | a zero key changes nothing. A non-zero key is appended to the unread keys while fewer than 7 wait. With 7 waiting it makes the buffer read as empty |
| KeyBuffer.PopUnread | spectrum.c:35-50 | an empty buffer returns 0 and is unchanged; otherwise the oldest unread key is returned and dropped |
| KeyBuffer.PushAllUnread | spectrum.c:58-67 | while fewer than 8 keys wait, non-zero keys pushed join the unread keys in order |
| KeyBuffer.PopAllUnread | spectrum.c:32-51 | n reads return the n oldest unread keys in order and leave the rest |
| KeyBuffer.Fifo | spectrum.c:32-67 | up to 7 non-zero keys pushed into an empty buffer are read back in push order, after which the buffer is empty |
| KeyBuffer.EightPushesLookEmpty | spectrum.c:36-66 | 8 pushes without a read bring `bufoffset` back to `readoffset`: the buffer reads as empty and all 8 keys are lost |
| KeyBuffer.NoZeroKeyKept | spectrum.c:32-67 | no zero key is ever stored, so a 0 from `getSingleKeypress` means exactly "empty" |
| KeyBuffer.KeyboardBuffer.constructor | spectrum.c:21-23 | the globals start zeroed |
| KeyBuffer.KeyboardBuffer.Reset | spectrum.c:91-94 | `kbuf` is zeroed and both offsets are 0 |
| KeyBuffer.KeyboardBuffer.Isr | spectrum.c:56-68 | the new buffer state is `Push` of the old one with the key read |
| KeyBuffer.KeyboardBuffer.GetSingleKeypress | spectrum.c:32-51 | the key returned and the new state are `Pop` of the old state |
| KeyBuffer.IsrAfterTestCommutes | spectrum.c:36-67 | an `isr` push between the non-empty test and the read gives the same key and the same buffer as the read followed by the push |
| Pokes.GroupAt | spectrum.c:212-215 | a group writes its third byte to the address whose low byte is the first byte and whose high byte is the second |
| Pokes.Passes | spectrum.c:209-210 | the loop over n bytes makes ceil(n/3) passes |
| Pokes.Filled | spectrum.c:201 | after `recv`, `bufor` holds the kept bytes, then the received ones, then its old tail |
| Pokes.Carried | spectrum.c:218-224 | with n a multiple of 3 the buffer is unchanged. Otherwise its first two bytes become the two bytes after the last applied group, which may lie past `bufor` |
| Pokes.Receive | spectrum.c:199-224 | one round keeps `pos` at n mod 3 (so at most 2) and applies ceil(n/3) groups |
| Pokes.RecvFits | spectrum.c:19-201 | with `pos` at most 2, the 1497-byte receive at `bufor + pos` stays inside the 1500-byte `bufor` |
| Pokes.SplitPokeMisdirected | spectrum.c:209-224 | a group split 1 + 2 over two receives is executed half-formed (0 to 0x0001), then completed with a stale byte (9 to 0x5000 instead of 0x5001) |
| Pokes.CarryReadsPastBuffer | spectrum.c:201-223 | with one byte kept and a full receive, 500 groups are applied and the two carried bytes are read from past the end of `bufor` |
| Pokes.WholeAppend | spectrum.c:209-216 | decoding a stream cut at a group boundary is decoding the two parts |
| Pokes.ReceiveWhole | spectrum.c:218-224 | the intended round keeps fewer than 3 bytes: exactly the tail of the kept-plus-received bytes that is not a whole group |
| Pokes.ReceiveAllIsWhole | spectrum.c:199-224 | however the stream is split into receives, the intended decoder applies exactly the whole groups of the whole stream, in order |
| Pokes.SplitPokeWhole | spectrum.c:209-224 | the split group of the example above, decoded as intended, writes 9 to 0x5001 |
| Pokes.PokeReceiver.constructor | spectrum.c:19 | `bufor` starts zeroed, `pos` at 0, and no poke applied |
| Pokes.PokeReceiver.Recv | spectrum.c:201 | `recv` writes the received bytes at `pos` and nothing else |
| Pokes.PokeReceiver.ApplyGroups | spectrum.c:209-216 | the `for` loop applies the groups `Applied` gives and ends with `s` at 3 ceil(n/3) and `r` at n - s |
| Pokes.PokeReceiver.CopyTail | spectrum.c:222-223 | `bufor[0..1]` become the two bytes at `s`, read past the buffer where `s` is beyond it |
| Pokes.PokeReceiver.Settle | spectrum.c:218-224 | `pos` becomes n mod 3, and `bufor` becomes the carried buffer `Carried` describes |
| Pokes.PokeReceiver.Round | spectrum.c:199-224 | the new `bufor`, `pos` and applied pokes are exactly those `Receive` gives |
| Telemetry.DecodeEncode | spectrum.c:114-120 | the host's `struct read_spectrum` view of the 6 bytes gives back the record sent |
| Telemetry.EncodeDecode | spectrum.c:114-120 | every 6 bytes are the encoding of the record the host reads from them |
| Telemetry.EncodeAll | spectrum.c:241-251 | a run of records is 6 bytes per record |
| Telemetry.DecodeAll | spectrum.c:241-251 | a stream of whole records gives one record per 6 bytes |
| Telemetry.DecodeAllEncodeAll | spectrum.c:241-251 | the host reads back exactly the records sent, in order |
| Telemetry.Transmitted | spectrum.c:234-239 | the records sent are drawn from the samples and are never more than the samples |
| Telemetry.TransmittedChanges | spectrum.c:234-239 | no record is sent twice in a row, and the first differs from what was sent before |
| Telemetry.FilterLosesNoEvents | spectrum.c:234 | leaving out repeated samples does not change the events the host sends |
| Telemetry.EveryTransmissionActs | spectrum.c:234 | every record that is sent makes the host send at least one event |
| Telemetry.Sender.constructor | spectrum.c:114-120 | `send_buffer` starts zeroed and nothing is on the wire |
| Telemetry.Sender.Poll | spectrum.c:231-252 | `send_buffer` becomes the sample. Its 6 bytes go out, however `send` splits them, exactly when the sample differs from the old `send_buffer` |
| Telemetry.WireIsTransmitted | spectrum.c:231-252 | the bytes of successive polls are the encodings of the transmitted samples |
| Telemetry.PollAll | spectrum.c:195-253 | over a run of samples the wire carries the encodings of the transmitted samples, and `send_buffer` holds the latest sample |

## Findings

| source | as written | input that shows it | evidently intended | confidence | as-written member | corrected member |
|---|---|---|---|---|---|---|
| zxvnc.c:428-437 | a key change from one non-zero key to another sends only key-down of the new key | records with key 'A', then 'B', then 0: 'A' is never released | release the old key, then press the new one | high, not executed | HostEvents.StuckKey | HostEvents.FixedHeldIsCurrent |
| spectrum.c:210-224 | the loop also executes a trailing partial group, and the bytes carried forward are the two after that group, not the leftover ones | receives `00 40 07 01` then `50 09`: 0 is written to 0x0001 and 9 to 0x5000 | apply only whole groups and carry the incomplete tail | high, not executed | Pokes.SplitPokeMisdirected | Pokes.ReceiveAllIsWhole |
| spectrum.c:201-223 | with `pos` 1 and a full 1497-byte receive the carry reads `bufor[1500]` and `bufor[1501]`, past the array | one byte kept, then a receive of 1497 bytes | carry from the bytes received | high, not executed | Pokes.CarryReadsPastBuffer | Pokes.ReceiveWhole |

The classes `HostEvents.EventHandler` and `Pokes.PokeReceiver` model the code as written. The corrected definitions sit beside them, with their properties proved.

## Left out

- The floating-point colour maths is not modelled: `rgbtoyuv`, `yuvtorgb`, `rgbtohsv`, `hsvtorgb`, `vtweak`, `ctweak` and `genpalyuv`. The per-pixel pipeline of `apply_tweak` is the parameter `transform`, and `palyuv` is a given 16-entry table.
- The libvncclient calls are outside the model. `get` is the parameter `fb`. `SendKeyEvent` and `SendPointerEvent` are events appended to a log. Connection setup, `WaitForMessage`, `HandleRFBServerMessage`, argument parsing, `log_to_file` and `cleanup` are left out.
- The host's `send_loop` thread, its `to_refresh` handshake, `nanosleep` and the `write` loop are left out, as I/O and concurrency. That loop sends the first 6912 bytes of `display` in every mode, so in Timex and ULA+ modes part of the image is never sent.
- The host's `poll`/`read` accumulation of input records is I/O and is left out. It reads `sizeof(read_spec)` rather than the remaining count. The model starts from whole records.
- The Spectrum hardware is reduced to parameters: IM2 setup, `di`/`ei`, `inputexit`, `in_GetKey`, `in_MouseKemp`, the socket calls and `poll_fd`. The interrupt routine runs with interrupts off, and the reader's slot read and `readoffset` update sit between `di` and `ei` (spectrum.c:38-48). The reader's emptiness test (spectrum.c:36) comes before `di`, however, so `isr` can run between the test and the read. When the test saw a key, such a push writes slot `bufoffset`, which is not `readoffset`. `IsrAfterTestCommutes` proves that it then gives the same key and state as the read followed by the push. For that reason the interrupt routine and the reader are modelled as calls that do not interleave.
- The failure paths of `recv` (negative result) and `send` (`goto wypad`) and the `POLLHUP` exit are left out.
- A poke is recorded as an (address, value) pair, not as a write to memory. A poke that overwrites `bufor` or the program itself is therefore not modelled.
- Telemetry.Sender.Poll: assumes every `send` accepts between 1 and the bytes offered. A failing `send` ends the program, and one that accepts nothing forever would loop forever; neither is modelled.
- Dither.Dither: the ULA+ branch is not modelled (`requires !mode.ulaPlus`). It indexes the 16-entry table with `palent` bytes that nothing writes, and `render` is never set away from 0.
- The `ax`/`ay` neighbour lookups of `dither` are left out. With `dithflow` constant TRUE they never affect the flow predicates, which reduce to the frame-edge checks.
- Dither.Work and the other dither specification functions (`Diffused`, `StepChannel`, `ToRight`, `ToDiagonal`, `ToBack`, `ToBelow`) only promise the image shape in their own contracts. What they mean is stated by the lemmas and methods that use them.
- The host sends a raw 6912-byte display while the Spectrum decodes 3-byte poke records. The two wire formats are not related in the model.
- `kbuf` is declared `char`; keys are modelled as bytes 0..255, as `in_GetKey` returns `uchar`.
