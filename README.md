# Insomniac Mouse firmware core, modelled in Dafny

The Insomniac Mouse firmware runs on a CH32V003 microcontroller and acts as a
USB mouse. This project models two parts of it.

- **Firmware/src/insomniac.c** (module `Insomniac`, `insomniac.dfy`):
  - `position_t` and the one-byte `mouse_delta_t` direction codes.
  - The sign-mask absolute value `int_abs`.
  - `move_to_endpoint`, a Bresenham line walk from (0,0) to a signed target.
    Each iteration prints a horizontal unit step and/or a vertical one.
- **Firmware/src/serial_uuid.c** (module `SerialUuid`, `serial_uuid.dfy`), the dynamic USB serial number:
  - the 96-bit MCU UUID is hashed to 32 bits with FNV-1a;
  - the hash is rendered as eight upper-case hexadecimal characters plus a NUL;
  - those characters are written as UTF-16LE into the 18-byte USB string
    descriptor `usb_serial`.

The step stream of `move_to_endpoint` is defined by functions over the loop's
arithmetic state (`Iterate`, `Output`, `Trace`). The method `MoveToEndpoint`
runs the loop of the C code over `Int16`/`Int32` values and is proved to
produce `Trace(endpoint)`. Lemmas prove what that stream does: it ends at the
target, never overshoots, and takes exactly |x| horizontal and |y| vertical
steps in max(|x|,|y|) iterations, horizontal step first.

On the serial side, `uint32_t` is `bv32` and `uint8_t`/`char` are `bv8`, so the
C arithmetic wraps modulo 2^32 as it does on the target. The hasher, the hex
renderer and the descriptor writer are methods over arrays, each proved against
a specification function. `usb_serial` is the array field of class `UsbSerial`.
Partner lemmas show:
- FNV-1a is incremental and gives the published reference values;
- the hex string parses back to the hashed value;
- decoding the descriptor's UTF-16LE string part gives the characters back.

## Model

| member | source | states |
|---|---|---|
| Insomniac.DirectionCodesDisjoint | Firmware/src/insomniac.c:14-22 | each code lies in one nibble (Up/Down high, Left/Right low); distinct codes share no bit |
| Insomniac.Combine | Firmware/src/insomniac.c:14-22 | OR-ing one horizontal and one vertical code gives a byte from which both codes are recovered by nibble masks, and which is neither a single code |
| Insomniac.SignMaskIsShift | Firmware/src/insomniac.c:67 | the mask `x >> 31` on an int32_t is floor division by 2^31: -1 for negative x, 0 otherwise |
| Insomniac.ToUInt32IsModulo | Firmware/src/insomniac.c:67-68 | the conversion to uint32_t used by int_abs is reduction modulo 2^32 |
| Insomniac.XorZero | Firmware/src/insomniac.c:68 | XOR with mask 0 leaves a 32-bit value unchanged |
| Insomniac.XorAllOnes | Firmware/src/insomniac.c:68 | XOR with the all-ones mask is the one's complement |
| Insomniac.IntAbsIdentity | Firmware/src/insomniac.c:67-68 | `x ^ mask` in uint32_t is x for x >= 0 and 0xFFFFFFFF - (x mod 2^32) for x < 0 |
| Insomniac.IntAbs | Firmware/src/insomniac.c:65-69 | int_abs returns exactly \|x\| for every int32_t, INT32_MIN included (2^31 as uint32_t) |
| Insomniac.ReplayCounts | Firmware/src/insomniac.c:94-112 | replaying steps in one horizontal and one vertical direction moves by (direction x count) on each axis |
| Insomniac.CountPrefix | Firmware/src/insomniac.c:87-113 | a prefix of the stream holds no more steps of a direction than the whole stream |
| Insomniac.AppendIteration | Firmware/src/insomniac.c:94-112 | appending one iteration's output keeps the stream in the two directions and adds one to each direction it contains |
| Insomniac.CountsCover | Firmware/src/insomniac.c:87-113 | a stream in two directions is as long as the two counts together |
| Insomniac.ReachesTarget | Firmware/src/insomniac.c:87-113 | \|x\| steps towards x plus \|y\| steps towards y end at the target and no prefix leaves the origin-to-target box |
| Insomniac.OutputChunks | Firmware/src/insomniac.c:87-113 | the printed stream is the per-iteration outputs laid end to end |
| Insomniac.MoveToEndpoint | Firmware/src/insomniac.c:71-114 | the loop terminates with the stream Trace(endpoint): only the two directions of the target, exactly \|x\| and \|y\| of them, ending at the endpoint, never overshooting, \|x\|+\|y\| steps; `chunks` is Chunks(endpoint, Iterations(endpoint)), one output of one or two steps per loop iteration, max(\|x\|,\|y\|) of them |
| Insomniac.StepOnce | Firmware/src/insomniac.c:88-113 | one loop iteration (err2, the x test then the y test, err updates, position updates) moves the state from iteration n to n+1 and extends the stream to Output(n+1) |
| Insomniac.IterationOutput | Firmware/src/insomniac.c:94-112 | an iteration prints its horizontal step, if any, before its vertical one |
| Insomniac.LoopExit | Firmware/src/insomniac.c:87 | the loop condition `startpoint != endpoint` fails exactly when max(\|x\|,\|y\|) iterations are done (both directions) |
| Insomniac.LoopGuards | Firmware/src/insomniac.c:77-111 | while the loop runs: fewer than max(\|x\|,\|y\|) iterations are done, the C tests are the model's step predicates, the deltas are <= 2^15, err is within +-2^16, and the int16_t position updates cannot overflow |
| Insomniac.IterateInvariant | Firmware/src/insomniac.c:83-113 | after n iterations the Bresenham invariant holds (err == xd(j+1) - yd(i+1), the dominant axis steps every iteration, err in its band), and work remains exactly while n < max(\|x\|,\|y\|) |
| Insomniac.IterateStream | Firmware/src/insomniac.c:87-113 | after n iterations the stream has i horizontal and j vertical steps, one or two per iteration |
| Insomniac.ChunkStep | Firmware/src/insomniac.c:94-112 | appending an iteration with at least one step re-establishes the stream invariant |
| Insomniac.StreamSnoc | Firmware/src/insomniac.c:94-112 | appending one iteration output adds its horizontal and vertical steps to the counts |
| Insomniac.TraceProperties | Firmware/src/insomniac.c:71-114 | the full stream ends at the target, never overshoots, has exactly \|x\| and \|y\| steps, \|x\|+\|y\| in total, one or two per iteration |
| Insomniac.TraceLeft | Firmware/src/insomniac.c:52-53 | target (-5, 0) prints five steps left |
| Insomniac.TraceDown | Firmware/src/insomniac.c:55-56 | target (0, -5) prints five steps down |
| Insomniac.TraceDiagonal | Firmware/src/insomniac.c:58-59 | target (-5, -5) prints left, down five times over |
| Insomniac.IterationGuards | Firmware/src/insomniac.c:90-112 | under the invariant an iteration takes at least one step, never steps an axis past its delta, and 2·err stays within 3·max(xd, yd) |
| Insomniac.IterationBand | Firmware/src/insomniac.c:87-90 | under the invariant work remains exactly while n < max(xd, yd), and 2·err stays within 3·max(xd, yd) |
| Insomniac.IterationPreserves | Firmware/src/insomniac.c:90-112 | one iteration of the body re-establishes the Bresenham invariant |
| Insomniac.NoStepPastX | Firmware/src/insomniac.c:94 | once all \|x\| horizontal steps are taken, err2 > -y_delta is false |
| Insomniac.NoStepPastY | Firmware/src/insomniac.c:105 | once all \|y\| vertical steps are taken, err2 < x_delta is false |
| Insomniac.SignMask | Firmware/src/insomniac.c:67 | definition: -1 for negative x, else 0; SignMaskIsShift proves it equals `x >> 31` |
| Insomniac.Advance | Firmware/src/insomniac.c:90-112 | definition: one iteration from state (i, j, err): i+1 and err - y_delta when 2·err > -y_delta, then j+1 and err + x_delta when 2·err < x_delta, both tests on the old err |
| Insomniac.Chunk | Firmware/src/insomniac.c:94-112 | the steps one iteration prints: the x-direction step exactly when err2 > -y_delta, the y-direction step exactly when err2 < x_delta, and when either test passes, `[h]`, `[v]` or `[h, v]`, horizontal first |
| Insomniac.Iterate | Firmware/src/insomniac.c:73-83 | definition: the state after n iterations, starting from i = j = 0 and err = x_delta - y_delta; IterateInvariant states what it keeps |
| Insomniac.Output | Firmware/src/insomniac.c:87-113 | definition: the steps printed by the first n iterations, the chunks of each in order; OutputChunks and IterateStream state its contents |
| Insomniac.Trace | Firmware/src/insomniac.c:71-114 | definition: the output after Iterations(target) iterations; TraceProperties states its properties |
| Insomniac.InvariantStart | Firmware/src/insomniac.c:73-83 | before the first iteration (i = j = 0, err = x_delta - y_delta) the loop invariant holds |
| Insomniac.InvariantStep | Firmware/src/insomniac.c:87-113 | one more iteration of the running loop keeps the loop invariant |
| Insomniac.StreamStep | Firmware/src/insomniac.c:94-112 | one more iteration of the running loop appends its output and its steps to the counts |
| SerialUuid.UuidBytes | Firmware/src/serial_uuid.c:60 | the 12 bytes seen through the `uint8_t` cast of the UUID: word 0 first, each little-endian; always 12 bytes long |
| SerialUuid.FnvStep | Firmware/src/serial_uuid.c:65-66 | definition: XOR the byte into the hash, then multiply by FNV_PRIME modulo 2^32 |
| SerialUuid.Fnv1a | Firmware/src/serial_uuid.c:55-67 | definition: FnvStep folded over the bytes in order from the offset basis 2166136261; FnvFromAppend and Fnv1aReferenceValues state its properties |
| SerialUuid.DigitValue | Firmware/src/serial_uuid.c:37 | the value of an upper-case hex digit ('0'..'9', 'A'..'F'), always below 16 |
| SerialUuid.HexDigit | Firmware/src/serial_uuid.c:37 | the character of nibble n is an upper-case hex digit whose value is n |
| SerialUuid.Descriptor | Firmware/src/serial_uuid.c:18-29 | the descriptor holding eight characters: bLength, type 3, then the characters in UTF-16LE; always USB_SERIAL_BYTES (18) long |
| Insomniac.ToUInt32 | Firmware/src/insomniac.c:67-68 | definition: C's conversion to uint32_t of a value within one wrap of its range, a negative value gaining 2^32; ToUInt32IsModulo proves it is reduction modulo 2^32 |
| Insomniac.Xor | Firmware/src/insomniac.c:68 | definition: bitwise `^` of the low `width` bits, bit by bit; XorZero and XorAllOnes state its behaviour on the two masks int_abs uses |
| Insomniac.XDirection | Firmware/src/insomniac.c:80 | definition: the horizontal code, right when x_step is +1 (0 < x) and left otherwise, the choice printed at line 100 |
| Insomniac.YDirection | Firmware/src/insomniac.c:81 | definition: the vertical code, up when y_step is +1 (0 < y) and down otherwise, the choice printed at line 111 |
| Insomniac.StepsX | Firmware/src/insomniac.c:94 | definition: the test err2 > -y_delta; LoopGuards proves it equals the C test in the loop's own variables |
| Insomniac.StepsY | Firmware/src/insomniac.c:105 | definition: the test err2 < x_delta; LoopGuards proves it equals the C test in the loop's own variables |
| SerialUuid.ByteOf | Firmware/src/serial_uuid.c:60 | definition: byte k of a word, least significant first, what `bytes[k]` reads through the cast on the little-endian target |
| SerialUuid.BigEndianBytes | Firmware/src/serial_uuid.c:76-82 | definition: bytes[3], bytes[2], bytes[1], bytes[0] of `val`, the order the loop visits them; BigEndianRoundTrip proves they read back as `val` |
| SerialUuid.HexString | Firmware/src/serial_uuid.c:79-87 | definition: the two table digits of each byte of `val` in loop order; HexStringDigits, HexRoundTrip and HexStringInjective state its properties and ConvU32HexStr is proved to write it |
| SerialUuid.Utf16Le | Firmware/src/serial_uuid.c:97-101 | each character followed by a zero byte, twice as long as its input; Utf16LeLayout and Utf16LeRoundTrip state its layout and inverse |
| SerialUuid.WordBytesRoundTrip | Firmware/src/serial_uuid.c:60 | reading a word's four little-endian bytes back gives the word |
| SerialUuid.UuidBytesLayout | Firmware/src/serial_uuid.c:60 | byte 4i + j of the UUID seen as bytes is byte j (least significant first) of word i |
| SerialUuid.FnvFromAppend | Firmware/src/serial_uuid.c:63-67 | hashing a + b is hashing a, then continuing from that state with b |
| SerialUuid.UuidHashByWords | Firmware/src/serial_uuid.c:60-67 | the UUID hash consumes word 0, then word 1, then word 2 |
| SerialUuid.Fnv1aReferenceValues | Firmware/src/serial_uuid.c:55-67 | the offset basis and prime give the published FNV-1a 32-bit values of "", "a" and "foobar" |
| SerialUuid.ConvUuidU32 | Firmware/src/serial_uuid.c:53-70 | conv_uuid_u32 returns FNV-1a of the 12 UUID bytes in memory order |
| SerialUuid.HexCharTableDigits | Firmware/src/serial_uuid.c:37 | entry n of hex_char_table is the upper-case hex digit whose value is n |
| SerialUuid.ByteHexFromTable | Firmware/src/serial_uuid.c:82-86 | the two characters of a byte are the table entries at its high and low nibble |
| SerialUuid.BigEndianRoundTrip | Firmware/src/serial_uuid.c:76-80 | reading bytes[3], …, bytes[0] of `val` most significant first gives `val` |
| SerialUuid.ParseHexByte | Firmware/src/serial_uuid.c:82-86 | parsing the two characters of a byte shifts the value up by 8 and adds the byte |
| SerialUuid.BytesHexDigits | Firmware/src/serial_uuid.c:85-86 | every rendered character is a hex digit taken from hex_char_table |
| SerialUuid.HexStringDigits | Firmware/src/serial_uuid.c:73-90 | the rendering is eight characters, each a hex digit from the table |
| SerialUuid.ParseBytesHex | Firmware/src/serial_uuid.c:80-87 | parsing the rendering of a byte string gives its most-significant-first value |
| SerialUuid.HexRoundTrip | Firmware/src/serial_uuid.c:73-90 | the eight characters parse back as base 16 to `val`: rendering is most significant first and loses nothing |
| SerialUuid.HexStringInjective | Firmware/src/serial_uuid.c:73-90 | distinct values render as distinct strings |
| SerialUuid.HexLoopStep | Firmware/src/serial_uuid.c:80-87 | rendering byte b appends the digits of its high nibble then its low nibble |
| SerialUuid.BigEndianIndex | Firmware/src/serial_uuid.c:80-82 | loop pass 3 - b reads byte b of `val` |
| SerialUuid.ConvU32HexStr | Firmware/src/serial_uuid.c:73-90 | conv_u32_hex_str fills `hex` with HexString(val) followed by NUL at index 8 |
| SerialUuid.PutByteHex | Firmware/src/serial_uuid.c:82-86 | one loop pass stores the table characters of byte b's nibbles at hex[chr] and hex[chr+1] and extends the rendered prefix by that byte |
| SerialUuid.PutPair | Firmware/src/serial_uuid.c:85-86 | two `hex[chr++] = …` stores extend the written prefix by the two characters |
| SerialUuid.Utf16LeLayout | Firmware/src/serial_uuid.c:99-100 | in the UTF-16LE form character i is at byte 2i and byte 2i+1 is zero |
| SerialUuid.Utf16LeRoundTrip | Firmware/src/serial_uuid.c:97-101 | the low bytes of the UTF-16LE form are the characters |
| SerialUuid.DescriptorLayout | Firmware/src/serial_uuid.c:18-34 | the descriptor is bLength 18, type 3, character i at byte 2+2i and zero at byte 3+2i, so all characters land in bytes 2..17, and decoding the UTF-16LE string part (`SerialChars`) gives exactly the characters back |
| SerialUuid.HexStringZero | Firmware/src/serial_uuid.c:79-89 | value 0 renders as "00000000" |
| SerialUuid.Utf16LeZeros | Firmware/src/serial_uuid.c:21-28 | the string part of the initialiser is eight '0' in UTF-16LE |
| SerialUuid.InitialDescriptorIsZero | Firmware/src/serial_uuid.c:14-29 | the initial usb_serial is the descriptor of hash 0; its string part decodes to "00000000", whose value is 0 |
| SerialUuid.UuidSerialReadsBack | Firmware/src/serial_uuid.c:108-117 | the serial derived from a UUID decodes back from its descriptor and parses to the UUID's hash |
| SerialUuid.UuidHashExample | Firmware/src/serial_uuid.c:53-70 | a UUID whose bytes are 0..11 in memory hashes to 0x4A509959 |
| SerialUuid.UsbSerial.constructor | Firmware/src/serial_uuid.c:18-29 | usb_serial starts as [18, 3, '0', 0, …, '0', 0] |
| SerialUuid.UsbSerial.SetU32Hex | Firmware/src/serial_uuid.c:93-102 | set_usb_serial_u32_hex keeps the header and writes character i of hex[0..7] at byte 2+2i with a zero after it; hex[8] is not copied, and the result depends only on hex[0..7], so writing the same string again changes nothing |
| SerialUuid.UsbSerial.SetUuid | Firmware/src/serial_uuid.c:108-117 | set_usb_serial_uuid leaves usb_serial as the descriptor of the hex of FNV-1a of the UUID bytes, and its decoded string part parses back to that hash |

## Left out

- get_mcu_uuid (Firmware/src/serial_uuid.c:42-50) reads memory-mapped ESIG registers at 0x1FFFF7E8. The model has no hardware, so `SetUuid` takes the three UUID words as a parameter.
- main and SystemInit are left out; the three calls in main appear only as the worked cases `TraceLeft`, `TraceDown` and `TraceDiagonal`.
- The `printf` of each step is left out. move_to_endpoint prints the words "right", "left", "up" and "down". The model appends the matching `mouse_delta_t` code to a sequence instead, as the doc comment of move_to_endpoint (Firmware/src/insomniac.c:39-40) describes: it appends the movement data to the circular buffer.
- The ring buffer md_buffer, md_head and md_tail (Firmware/src/insomniac.c:25-29) is declared but never used, so it is not modelled.
- The USB configuration (Firmware/src/rv003usb/usb_config.h) is not part of this model, nor is the USB stack that sends the descriptor.
- Nothing in the modelled files hands `usb_serial` to the USB stack. The serial-string request is answered in Firmware/src/rv003usb/usb_config.h:185 by the static string u"76543210" (lines 130 and 160-164). `SerialChars` is therefore the UTF-16LE decoding a host would apply if `usb_serial` were the descriptor served, and the model promises nothing about what a host actually receives.
- `USB_SERIAL_BYTES` is defined in none of the source files. It is taken as 18, the length of the usb_serial initialiser: a 2-byte header plus 8 UTF-16 code units.
- The archived firmware (Firmware/archive/), test.c and the Python scripts average.py and mean.py are not part of this model.
- Fnv1aReferenceValues: pins the hash only on known vectors and the incremental law. It does not prove collision properties, and injectivity of the per-byte FNV step was not proved.
- The ghost output `chunks` of `MoveToEndpoint` groups the stream by iteration. It has no C counterpart and exists only to state the per-iteration properties.
- The C code indexes `bytes[b]` through a pointer cast to get little-endian bytes. The model spells this as `ByteOf(val, b)`, the b-th least significant byte; the target is little-endian RISC-V. Pointer aliasing of the cast is not modelled.
