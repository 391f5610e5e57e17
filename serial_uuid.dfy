/*
 * Dynamic USB serial number of the Insomniac mouse: the 96-bit MCU UUID
 * is hashed to 32 bits with FNV-1a, the hash is rendered as eight upper-case
 * hexadecimal characters, and those are written as UTF-16LE into the USB
 * string descriptor that holds the serial number.
 *
 * C `char` and `uint8_t` are both 8 bits on this target and are modelled by
 * `Byte`; `uint32_t` is `Word`, whose arithmetic wraps modulo 2^32 exactly as
 * the C unsigned arithmetic does.
 */
module SerialUuid {

  datatype Option<T> = None | Some(value: T)

  type Byte = bv8
  type Word = bv32

  // ---------------------------------------------------------------------
  // Memory layout of the UUID (uint32_t[3], little-endian)
  // ---------------------------------------------------------------------

  /** Byte k, counted from the least significant, of a word. */
  function ByteOf(w: Word, k: nat): Byte
    requires k < 4
  {
    (if k == 0 then w & 0xFF
     else if k == 1 then (w >> 8) & 0xFF
     else if k == 2 then (w >> 16) & 0xFF
     else (w >> 24) & 0xFF) as Byte
  }

  /** The four bytes of a word in memory order on a little-endian target. */
  function WordBytes(w: Word): seq<Byte>
  {
    [ByteOf(w, 0), ByteOf(w, 1), ByteOf(w, 2), ByteOf(w, 3)]
  }

  /** The word stored in four consecutive little-endian bytes. */
  function LittleEndianWord(b: seq<Byte>): Word
    requires |b| == 4
  {
    b[0] as Word | (b[1] as Word << 8) | (b[2] as Word << 16) | (b[3] as Word << 24)
  }

  /** Reading a word's bytes back as a little-endian word gives the word. */
  lemma WordBytesRoundTrip(w: Word)
    ensures LittleEndianWord(WordBytes(w)) == w
  {
  }

  /** The 12 bytes seen through `(const uint8_t *)id`: word 0 first, each little-endian. */
  function UuidBytes(id: seq<Word>): (r: seq<Byte>)
    requires |id| == 3
    ensures |r| == 12
  {
    WordBytes(id[0]) + WordBytes(id[1]) + WordBytes(id[2])
  }

  /** Bytes 4i..4i + 3 of the UUID view are the bytes of word i, least significant first. */
  lemma UuidBytesLayout(id: seq<Word>)
    requires |id| == 3
    ensures forall j :: 0 <= j < 4 ==>
      UuidBytes(id)[j] == ByteOf(id[0], j) && UuidBytes(id)[4 + j] == ByteOf(id[1], j)
      && UuidBytes(id)[8 + j] == ByteOf(id[2], j)
  {
    var w0, w1, w2 := WordBytes(id[0]), WordBytes(id[1]), WordBytes(id[2]);
    forall j | 0 <= j < 4
      ensures UuidBytes(id)[j] == w0[j] && UuidBytes(id)[4 + j] == w1[j] && UuidBytes(id)[8 + j] == w2[j]
    {
    }
  }

  // ---------------------------------------------------------------------
  // FNV-1a, 32-bit variant
  // ---------------------------------------------------------------------

  const FnvOffsetBasis: Word := 2166136261
  const FnvPrime: Word := 16777619

  /** One round: XOR the byte into the hash, then multiply by the prime modulo 2^32. */
  function FnvStep(hash: Word, b: Byte): Word
  {
    (hash ^ b as Word) * FnvPrime
  }

  /** The hash state after consuming `bytes`, in order, from state `hash`. */
  function FnvFrom(hash: Word, bytes: seq<Byte>): Word
  {
    if bytes == [] then hash
    else FnvStep(FnvFrom(hash, bytes[..|bytes| - 1]), bytes[|bytes| - 1])
  }

  /** FNV-1a of a byte string. */
  function Fnv1a(bytes: seq<Byte>): Word
  {
    FnvFrom(FnvOffsetBasis, bytes)
  }

  /** Hashing is incremental: the state after a + b is the state after a, continued with b. */
  lemma {:induction false} FnvFromAppend(hash: Word, a: seq<Byte>, b: seq<Byte>)
    ensures FnvFrom(hash, a + b) == FnvFrom(FnvFrom(hash, a), b)
  {
    if b != [] {
      var init := b[..|b| - 1];
      assert (a + b)[..|a + b| - 1] == a + init;
      assert (a + b)[|a + b| - 1] == b[|b| - 1];
      FnvFromAppend(hash, a, init);
    } else {
      assert a + b == a;
    }
  }

  lemma FnvFromSnoc(hash: Word, bytes: seq<Byte>, b: Byte)
    ensures FnvFrom(hash, bytes + [b]) == FnvStep(FnvFrom(hash, bytes), b)
  {
    assert (bytes + [b])[..|bytes|] == bytes;
  }

  /** The UUID hash takes word 0, then word 1, then word 2, each byte by byte. */
  lemma UuidHashByWords(id: seq<Word>)
    requires |id| == 3
    ensures Fnv1a(UuidBytes(id))
            == FnvFrom(FnvFrom(FnvFrom(FnvOffsetBasis, WordBytes(id[0])), WordBytes(id[1])), WordBytes(id[2]))
  {
    FnvFromAppend(FnvOffsetBasis, WordBytes(id[0]) + WordBytes(id[1]), WordBytes(id[2]));
    FnvFromAppend(FnvOffsetBasis, WordBytes(id[0]), WordBytes(id[1]));
  }

  /**
   * The published FNV-1a 32-bit values of "", "a" (ASCII 0x61) and
   * "foobar" (ASCII 0x66 0x6F 0x6F 0x62 0x61 0x72).
   */
  lemma Fnv1aReferenceValues()
    ensures Fnv1a([]) == 0x811C_9DC5
    ensures Fnv1a([0x61]) == 0xE40C_292C
    ensures Fnv1a([0x66, 0x6F, 0x6F, 0x62, 0x61, 0x72]) == 0xBF9C_F968
  {
    var s0: seq<Byte> := [];
    FnvFromSnoc(FnvOffsetBasis, s0, 0x61);
    assert s0 + [0x61] == [0x61];
    FnvFromSnoc(FnvOffsetBasis, s0, 0x66);
    var s1 := s0 + [0x66];
    assert Fnv1a(s1) == 0xE30C_2799;
    FnvFromSnoc(FnvOffsetBasis, s1, 0x6F);
    var s2 := s1 + [0x6F];
    assert Fnv1a(s2) == 0x6222_E842;
    FnvFromSnoc(FnvOffsetBasis, s2, 0x6F);
    var s3 := s2 + [0x6F];
    assert Fnv1a(s3) == 0xA9F3_7ED7;
    FnvFromSnoc(FnvOffsetBasis, s3, 0x62);
    var s4 := s3 + [0x62];
    assert Fnv1a(s4) == 0x3F50_76EF;
    FnvFromSnoc(FnvOffsetBasis, s4, 0x61);
    var s5 := s4 + [0x61];
    assert Fnv1a(s5) == 0x39AA_A18A;
    FnvFromSnoc(FnvOffsetBasis, s5, 0x72);
    var s6 := s5 + [0x72];
    assert s6 == [0x66, 0x6F, 0x6F, 0x62, 0x61, 0x72];
  }

  /** conv_uuid_u32: FNV-1a over the 12 bytes of the UUID in memory order. */
  method ConvUuidU32(id: array<Word>) returns (hash: Word)
    requires id.Length == 3
    ensures hash == Fnv1a(UuidBytes(id[..]))
  {
    hash := FnvOffsetBasis;
    var bytes := UuidBytes(id[..]);
    for b := 0 to 12
      invariant hash == Fnv1a(bytes[..b])
    {
      assert bytes[..b + 1][..b] == bytes[..b];
      hash := FnvStep(hash, bytes[b]);
    }
    assert bytes[..12] == bytes;
  }

  // ---------------------------------------------------------------------
  // Hexadecimal rendering of a word
  // ---------------------------------------------------------------------

  /** hex_char_table: the ASCII codes of "0123456789ABCDEF". */
  const HexCharTable: seq<Byte> :=
    [0x30, 0x31, 0x32, 0x33, 0x34, 0x35, 0x36, 0x37,
     0x38, 0x39, 0x41, 0x42, 0x43, 0x44, 0x45, 0x46]

  const Nul: Byte := 0

  /** An upper-case hexadecimal digit: '0'..'9' (0x30..0x39) or 'A'..'F' (0x41..0x46). */
  predicate IsHexDigit(c: Byte)
  {
    0x30 <= c <= 0x39 || 0x41 <= c <= 0x46
  }

  /** The value of a hexadecimal digit. */
  function DigitValue(c: Byte): (d: Byte)
    requires IsHexDigit(c)
    ensures d < 16
  {
    if c <= 0x39 then c - 0x30 else c - 0x41 + 10
  }

  /** The character of nibble n: a hexadecimal digit whose value is n. */
  function HexDigit(n: Byte): (c: Byte)
    requires n < 16
    ensures IsHexDigit(c) && DigitValue(c) == n
  {
    if n < 10 then 0x30 + n else 0x41 + (n - 10)
  }

  /** hex_char_table holds the digit of each nibble at that nibble's index. */
  lemma HexCharTableDigits(n: Byte)
    requires n < 16
    ensures HexCharTable[n as int] == HexDigit(n)
  {
  }

  /** The two characters of a byte: its high nibble, then its low nibble. */
  function ByteHex(x: Byte): seq<Byte>
  {
    [HexDigit(x >> 4), HexDigit(x & 0x0F)]
  }

  /** The hexadecimal characters of a byte string, two per byte. */
  function BytesHex(bs: seq<Byte>): (s: seq<Byte>)
    ensures |s| == 2 * |bs|
  {
    if bs == [] then [] else BytesHex(bs[..|bs| - 1]) + ByteHex(bs[|bs| - 1])
  }

  /** The bytes of a word from the most significant down, the order `bytes[3]`, …, `bytes[0]`. */
  function BigEndianBytes(val: Word): seq<Byte>
  {
    [ByteOf(val, 3), ByteOf(val, 2), ByteOf(val, 1), ByteOf(val, 0)]
  }

  /** The value of a byte string read most significant byte first, modulo 2^32. */
  function BigEndianValue(bs: seq<Byte>): Word
  {
    if bs == [] then 0 else (BigEndianValue(bs[..|bs| - 1]) << 8) | bs[|bs| - 1] as Word
  }

  lemma BigEndianValueSnoc(bs: seq<Byte>, x: Byte)
    ensures BigEndianValue(bs + [x]) == (BigEndianValue(bs) << 8) | x as Word
  {
    assert (bs + [x])[..|bs|] == bs;
  }

  /** The value of four bytes, most significant first. */
  lemma BigEndianValueFour(a: Byte, b: Byte, c: Byte, d: Byte)
    ensures BigEndianValue([a, b, c, d]) == (((((a as Word << 8) | b as Word) << 8) | c as Word) << 8) | d as Word
  {
    BigEndianValueSnoc([], a);
    assert [] + [a] == [a];
    BigEndianValueSnoc([a], b);
    assert [a] + [b] == [a, b];
    BigEndianValueSnoc([a, b], c);
    assert [a, b] + [c] == [a, b, c];
    BigEndianValueSnoc([a, b, c], d);
    assert [a, b, c] + [d] == [a, b, c, d];
  }

  /** Reading a word's bytes back most significant first gives the word. */
  lemma BigEndianRoundTrip(val: Word)
    ensures BigEndianValue(BigEndianBytes(val)) == val
  {
    BigEndianValueFour(ByteOf(val, 3), ByteOf(val, 2), ByteOf(val, 1), ByteOf(val, 0));
    WordFromBytes(val);
  }

  lemma WordFromBytes(val: Word)
    ensures (((((ByteOf(val, 3) as Word << 8) | ByteOf(val, 2) as Word) << 8) | ByteOf(val, 1) as Word) << 8)
            | ByteOf(val, 0) as Word == val
  {
  }

  /** The eight hexadecimal characters of `val`, zero-padded, most significant first. */
  function HexString(val: Word): seq<Byte>
  {
    BytesHex(BigEndianBytes(val))
  }

  lemma BytesHexSnoc(bs: seq<Byte>, x: Byte)
    ensures BytesHex(bs + [x]) == BytesHex(bs) + ByteHex(x)
  {
    assert (bs + [x])[..|bs|] == bs;
  }

  /**
   * The value of a string of hexadecimal digits read most significant
   * first, modulo 2^32; None when a character is not a digit.
   */
  function ParseHex(s: seq<Byte>): Option<Word>
  {
    if s == [] then Some(0)
    else
      match ParseHex(s[..|s| - 1])
      case None => None
      case Some(v) =>
        var c := s[|s| - 1];
        if IsHexDigit(c) then Some((v << 4) | DigitValue(c) as Word) else None
  }

  /** One more digit: the value so far shifted up a nibble, with the digit's value below. */
  lemma ParseHexSnoc(s: seq<Byte>, v: Word, c: Byte)
    requires ParseHex(s) == Some(v) && IsHexDigit(c)
    ensures ParseHex(s + [c]) == Some((v << 4) | DigitValue(c) as Word)
  {
    assert (s + [c])[..|s|] == s;
  }

  /** Two more digits, those of byte x: the value so far shifted up a byte, with x below. */
  lemma ParseHexByte(s: seq<Byte>, v: Word, x: Byte)
    requires ParseHex(s) == Some(v)
    ensures ParseHex(s + ByteHex(x)) == Some((v << 8) | x as Word)
  {
    var high, low := HexDigit(x >> 4), HexDigit(x & 0x0F);
    ParseHexTwoDigits(s, v, high, low);
    assert s + ByteHex(x) == s + [high] + [low];
    ShiftInByte(v, x);
  }

  lemma ParseHexTwoDigits(s: seq<Byte>, v: Word, c1: Byte, c2: Byte)
    requires ParseHex(s) == Some(v) && IsHexDigit(c1) && IsHexDigit(c2)
    ensures ParseHex(s + [c1] + [c2]) == Some((((v << 4) | DigitValue(c1) as Word) << 4) | DigitValue(c2) as Word)
  {
    ParseHexSnoc(s, v, c1);
    ParseHexSnoc(s + [c1], (v << 4) | DigitValue(c1) as Word, c2);
  }

  lemma ShiftInByte(v: Word, x: Byte)
    ensures ((((v << 4) | (x >> 4) as Word)) << 4) | (x & 0x0F) as Word == (v << 8) | x as Word
  {
  }

  /** The two characters of a byte are the table entries at its two nibbles. */
  lemma ByteHexFromTable(x: Byte)
    ensures ByteHex(x) == [HexCharTable[(x >> 4) as int], HexCharTable[(x & 0x0F) as int]]
  {
    HexCharTableDigits(x >> 4);
    HexCharTableDigits(x & 0x0F);
  }

  /** Every character of the hexadecimal form of a byte string is a digit from the table. */
  lemma {:induction false} BytesHexDigits(bs: seq<Byte>)
    ensures forall k :: 0 <= k < |BytesHex(bs)| ==> IsHexDigit(BytesHex(bs)[k]) && BytesHex(bs)[k] in HexCharTable
  {
    if bs != [] {
      var init, x := bs[..|bs| - 1], bs[|bs| - 1];
      BytesHexDigits(init);
      ByteHexFromTable(x);
      var t := ByteHex(x);
      assert t[0] in HexCharTable && t[1] in HexCharTable;
      assert BytesHex(bs) == BytesHex(init) + t;
    }
  }

  /** The rendering of `val` is eight characters, each drawn from the table and a hexadecimal digit. */
  lemma HexStringDigits(val: Word)
    ensures |HexString(val)| == 8
    ensures forall k :: 0 <= k < 8 ==> IsHexDigit(HexString(val)[k]) && HexString(val)[k] in HexCharTable
  {
    BytesHexDigits(BigEndianBytes(val));
  }

  /** Parsing the hexadecimal form of a byte string gives its most-significant-first value. */
  lemma {:induction false} ParseBytesHex(bs: seq<Byte>)
    ensures ParseHex(BytesHex(bs)) == Some(BigEndianValue(bs))
  {
    if bs != [] {
      ParseBytesHex(bs[..|bs| - 1]);
      ParseHexByte(BytesHex(bs[..|bs| - 1]), BigEndianValue(bs[..|bs| - 1]), bs[|bs| - 1]);
    }
  }

  /** Parsing the rendering of `val` as base 16 gives `val` back. */
  lemma HexRoundTrip(val: Word)
    ensures ParseHex(HexString(val)) == Some(val)
  {
    ParseBytesHex(BigEndianBytes(val));
    BigEndianRoundTrip(val);
  }

  /** Distinct words render to distinct strings. */
  lemma HexStringInjective(a: Word, b: Word)
    requires HexString(a) == HexString(b)
    ensures a == b
  {
    HexRoundTrip(a);
    HexRoundTrip(b);
  }

  lemma LastOf(s: seq<Byte>)
    requires s != []
    ensures s == s[..|s| - 1] + [s[|s| - 1]]
  {
  }

  lemma PrefixSnoc2(s: seq<Byte>, k: nat)
    requires k + 2 <= |s|
    ensures s[..k + 2] == s[..k] + [s[k], s[k + 1]]
  {
  }

  /** Rendering one more byte, byte b of `val`, appends the digits of its two nibbles. */
  lemma HexLoopStep(val: Word, b: nat)
    requires b < 4
    ensures BytesHex(BigEndianBytes(val)[..4 - b])
            == BytesHex(BigEndianBytes(val)[..3 - b])
               + [HexDigit(ByteOf(val, b) >> 4), HexDigit(ByteOf(val, b) & 0x0F)]
  {
    var bs, x := BigEndianBytes(val), ByteOf(val, b);
    BigEndianIndex(val, b);
    assert bs[..4 - b] == bs[..3 - b] + [x];
    BytesHexSnoc(bs[..3 - b], x);
  }

  lemma BigEndianIndex(val: Word, b: nat)
    requires b < 4
    ensures BigEndianBytes(val)[3 - b] == ByteOf(val, b)
  {
  }

  /**
   * conv_u32_hex_str: for b = 3 down to 0 the high then the low nibble of
   * byte b of `val` is looked up in the table, and the NUL follows at index 8.
   */
  method ConvU32HexStr(val: Word, hex: array<Byte>)
    requires hex.Length == 9
    modifies hex
    ensures hex[..] == HexString(val) + [Nul]
  {
    var chr := 0;
    var b := 3;
    while b >= 0
      invariant -1 <= b <= 3 && chr == 2 * (3 - b)
      invariant hex[..chr] == BytesHex(BigEndianBytes(val)[..3 - b])
      decreases b
    {
      chr := PutByteHex(val, b, hex, chr);
      b := b - 1;
    }
    hex[chr] := Nul;
    LastOf(hex[..]);
    assert BigEndianBytes(val)[..4] == BigEndianBytes(val);
  }

  /**
   * One pass of the loop of conv_u32_hex_str: the nibbles of byte b are
   * looked up in the table and stored at hex[chr0] and hex[chr0 + 1].
   */
  method PutByteHex(val: Word, b: nat, hex: array<Byte>, chr0: nat) returns (chr: nat)
    requires b < 4 && chr0 == 2 * (3 - b) && hex.Length == 9
    requires hex[..chr0] == BytesHex(BigEndianBytes(val)[..3 - b])
    modifies hex
    ensures chr == chr0 + 2 && hex[..chr] == BytesHex(BigEndianBytes(val)[..4 - b])
    ensures hex[chr..] == old(hex[chr..])
  {
    var byte := ByteOf(val, b);
    var uNibble := byte >> 4;
    var lNibble := byte & 0x0F;
    HexLoopStep(val, b);
    HexCharTableDigits(uNibble);
    HexCharTableDigits(lNibble);
    chr := PutPair(hex, chr0, HexCharTable[uNibble as int], HexCharTable[lNibble as int]);
  }

  /** Writes `c1` and `c2` at `hex[chr0]` and `hex[chr0 + 1]`: two `hex[chr++] = ...` steps. */
  method PutPair(hex: array<Byte>, chr0: nat, c1: Byte, c2: Byte) returns (chr: nat)
    requires chr0 + 2 <= hex.Length
    modifies hex
    ensures chr == chr0 + 2 && hex[..chr] == old(hex[..chr0]) + [c1, c2]
    ensures hex[chr..] == old(hex[chr..])
  {
    chr := chr0;
    hex[chr] := c1;
    chr := chr + 1;
    hex[chr] := c2;
    chr := chr + 1;
    PrefixSnoc2(hex[..], chr0);
  }

  // ---------------------------------------------------------------------
  // The USB serial-number string descriptor
  // ---------------------------------------------------------------------

  /** USB_SERIAL_BYTES: bLength, bDescriptorType, and eight UTF-16 code units. */
  const UsbSerialBytes: nat := 18
  /** bDescriptorType of a USB string descriptor. */
  const StringDescriptorType: Byte := 3
  /** usb_serial_str_ptr points at usb_serial[2], the first byte of the string. */
  const SerialStringOffset: nat := 2

  /** ASCII characters widened to UTF-16LE: each byte followed by a zero byte. */
  function Utf16Le(cs: seq<Byte>): (r: seq<Byte>)
    ensures |r| == 2 * |cs|
  {
    if cs == [] then [] else Utf16Le(cs[..|cs| - 1]) + [cs[|cs| - 1], 0]
  }

  lemma Utf16LeSnoc(cs: seq<Byte>, c: Byte)
    ensures Utf16Le(cs + [c]) == Utf16Le(cs) + [c, 0]
  {
    assert (cs + [c])[..|cs|] == cs;
  }

  /** The low bytes of the UTF-16LE code units of `bs`. */
  function Utf16LeLowBytes(bs: seq<Byte>): seq<Byte>
  {
    if |bs| < 2 then [] else Utf16LeLowBytes(bs[..|bs| - 2]) + [bs[|bs| - 2]]
  }

  /** Character i sits at byte 2i and byte 2i + 1 is zero. */
  lemma {:induction false} Utf16LeLayout(cs: seq<Byte>)
    ensures forall i :: 0 <= i < |cs| ==> Utf16Le(cs)[2 * i] == cs[i] && Utf16Le(cs)[2 * i + 1] == 0
  {
    if cs != [] {
      Utf16LeLayout(cs[..|cs| - 1]);
    }
  }

  /** Taking the low bytes of the UTF-16LE form gives the characters back. */
  lemma {:induction false} Utf16LeRoundTrip(cs: seq<Byte>)
    ensures Utf16LeLowBytes(Utf16Le(cs)) == cs
  {
    if cs != [] {
      var r := Utf16Le(cs);
      assert r[..|r| - 2] == Utf16Le(cs[..|cs| - 1]);
      Utf16LeRoundTrip(cs[..|cs| - 1]);
    }
  }

  /** The descriptor holding the eight serial characters `chars`. */
  function Descriptor(chars: seq<Byte>): (d: seq<Byte>)
    requires |chars| == 8
    ensures |d| == UsbSerialBytes
  {
    [UsbSerialBytes as Byte, StringDescriptorType] + Utf16Le(chars)
  }

  /**
   * The characters a host would decode from the descriptor if it were served:
   * the low bytes of its UTF-16LE code units.
   */
  function SerialChars(d: seq<Byte>): seq<Byte>
    requires |d| == UsbSerialBytes
  {
    Utf16LeLowBytes(d[SerialStringOffset..])
  }

  /**
   * The descriptor is bLength 18, type 3, then character i at byte 2 + 2i
   * and a zero at byte 3 + 2i; all characters land in bytes 2..17, and
   * decoding the UTF-16LE string part gives exactly `chars` back.
   */
  lemma DescriptorLayout(chars: seq<Byte>)
    requires |chars| == 8
    ensures Descriptor(chars)[0] == 18 && Descriptor(chars)[1] == 3
    ensures forall i :: 0 <= i < 8 ==>
      Descriptor(chars)[2 + 2 * i] == chars[i] && Descriptor(chars)[3 + 2 * i] == 0
    ensures SerialChars(Descriptor(chars)) == chars
  {
    Utf16LeLayout(chars);
    assert Descriptor(chars)[SerialStringOffset..] == Utf16Le(chars);
    Utf16LeRoundTrip(chars);
  }

  /** The initial usb_serial: eight UTF-16LE '0' characters. */
  const InitialDescriptor: seq<Byte> :=
    [18, 3, 0x30, 0, 0x30, 0, 0x30, 0, 0x30, 0, 0x30, 0, 0x30, 0, 0x30, 0, 0x30, 0]

  /** Hash 0 renders as "00000000". */
  lemma HexStringZero()
    ensures HexString(0) == [0x30, 0x30, 0x30, 0x30, 0x30, 0x30, 0x30, 0x30]
  {
    assert BigEndianBytes(0) == [0, 0, 0, 0];
    assert ByteHex(0) == [0x30, 0x30];
    var s0: seq<Byte> := [];
    BytesHexSnoc(s0, 0);
    var s1 := s0 + [0];
    BytesHexSnoc(s1, 0);
    var s2 := s1 + [0];
    BytesHexSnoc(s2, 0);
    var s3 := s2 + [0];
    BytesHexSnoc(s3, 0);
    assert s3 + [0] == [0, 0, 0, 0];
  }

  /** Eight '0' characters in UTF-16LE, the string part of the initial usb_serial. */
  lemma Utf16LeZeros()
    ensures Utf16Le([0x30, 0x30, 0x30, 0x30, 0x30, 0x30, 0x30, 0x30]) == InitialDescriptor[SerialStringOffset..]
  {
    var s0: seq<Byte> := [];
    Utf16LeSnoc(s0, 0x30);
    var s1 := s0 + [0x30];
    Utf16LeSnoc(s1, 0x30);
    var s2 := s1 + [0x30];
    Utf16LeSnoc(s2, 0x30);
    var s3 := s2 + [0x30];
    Utf16LeSnoc(s3, 0x30);
    var s4 := s3 + [0x30];
    Utf16LeSnoc(s4, 0x30);
    var s5 := s4 + [0x30];
    Utf16LeSnoc(s5, 0x30);
    var s6 := s5 + [0x30];
    Utf16LeSnoc(s6, 0x30);
    var s7 := s6 + [0x30];
    Utf16LeSnoc(s7, 0x30);
    assert s7 + [0x30] == [0x30, 0x30, 0x30, 0x30, 0x30, 0x30, 0x30, 0x30];
  }

  /** The initial descriptor is the one for hash 0: its string decodes to "00000000", value 0. */
  lemma InitialDescriptorIsZero()
    ensures InitialDescriptor == Descriptor(HexString(0))
    ensures SerialChars(InitialDescriptor) == HexString(0)
    ensures ParseHex(SerialChars(InitialDescriptor)) == Some(0)
  {
    HexStringZero();
    Utf16LeZeros();
    assert InitialDescriptor == InitialDescriptor[..SerialStringOffset] + InitialDescriptor[SerialStringOffset..];
    DescriptorLayout(HexString(0));
    HexRoundTrip(0);
  }

  /** The serial characters derived from a UUID: the hex of its FNV-1a hash. */
  function UuidSerial(id: seq<Word>): seq<Byte>
    requires |id| == 3
  {
    HexString(Fnv1a(UuidBytes(id)))
  }

  /** The serial of a UUID decodes back from its descriptor and parses to the UUID's hash. */
  lemma UuidSerialReadsBack(id: seq<Word>)
    requires |id| == 3
    ensures SerialChars(Descriptor(UuidSerial(id))) == UuidSerial(id)
    ensures ParseHex(UuidSerial(id)) == Some(Fnv1a(UuidBytes(id)))
  {
    DescriptorLayout(UuidSerial(id));
    HexRoundTrip(Fnv1a(UuidBytes(id)));
  }

  /** A UUID whose bytes in memory are 0, 1, …, 11 hashes to 0x4A509959. */
  lemma UuidHashExample()
    ensures UuidBytes([0x0302_0100, 0x0706_0504, 0x0B0A_0908]) == [0, 1, 2, 3, 4, 5, 6, 7, 8, 9, 10, 11]
    ensures Fnv1a([0, 1, 2, 3, 4, 5, 6, 7, 8, 9, 10, 11]) == 0x4A50_9959
  {
    var s0: seq<Byte> := [];
    FnvFromSnoc(FnvOffsetBasis, s0, 0);
    var s1 := s0 + [0];
    assert Fnv1a(s1) == 0x050C_5D1F;
    FnvFromSnoc(FnvOffsetBasis, s1, 1);
    var s2 := s1 + [1];
    assert Fnv1a(s2) == 0x1076_963A;
    FnvFromSnoc(FnvOffsetBasis, s2, 2);
    var s3 := s2 + [2];
    assert Fnv1a(s3) == 0x22AE_7A28;
    FnvFromSnoc(FnvOffsetBasis, s3, 3);
    var s4 := s3 + [3];
    assert Fnv1a(s4) == 0xC3AA_51B1;
    FnvFromSnoc(FnvOffsetBasis, s4, 4);
    var s5 := s4 + [4];
    assert Fnv1a(s5) == 0xBA1E_9FEF;
    FnvFromSnoc(FnvOffsetBasis, s5, 5);
    var s6 := s5 + [5];
    assert Fnv1a(s6) == 0xE835_BD5E;
    FnvFromSnoc(FnvOffsetBasis, s6, 6);
    var s7 := s6 + [6];
    assert Fnv1a(s7) == 0xE499_1188;
    FnvFromSnoc(FnvOffsetBasis, s7, 7);
    var s8 := s7 + [7];
    assert Fnv1a(s8) == 0x6BF6_A41D;
    FnvFromSnoc(FnvOffsetBasis, s8, 8);
    var s9 := s8 + [8];
    assert Fnv1a(s9) == 0x0A44_4D0F;
    FnvFromSnoc(FnvOffsetBasis, s9, 9);
    var s10 := s9 + [9];
    assert Fnv1a(s10) == 0x2F85_4072;
    FnvFromSnoc(FnvOffsetBasis, s10, 10);
    var s11 := s10 + [10];
    assert Fnv1a(s11) == 0x46C4_7CE8;
    FnvFromSnoc(FnvOffsetBasis, s11, 11);
    var s12 := s11 + [11];
    assert s12 == [0, 1, 2, 3, 4, 5, 6, 7, 8, 9, 10, 11];
  }

  /** The global usb_serial buffer. */
  class UsbSerial {
    const buf: array<Byte>

    /** The buffer is USB_SERIAL_BYTES long and its header is bLength 18, type 3. */
    predicate Valid()
      reads this, buf
    {
      buf.Length == UsbSerialBytes && buf[0] == UsbSerialBytes as Byte && buf[1] == StringDescriptorType
    }

    /** The static initialiser of usb_serial. */
    constructor ()
      ensures Valid() && fresh(buf)
      ensures buf[..] == InitialDescriptor
    {
      buf := new Byte[UsbSerialBytes](i requires 0 <= i < UsbSerialBytes => InitialDescriptor[i]);
    }

    /**
     * set_usb_serial_u32_hex: the eight characters of `hex` are written
     * through the string pointer, each followed by a zero byte. The header
     * is kept, hex[8] is never copied, and the new contents depend on
     * `hex` alone, so writing the same string twice changes nothing.
     */
    method SetU32Hex(hex: array<Byte>)
      requires Valid() && hex.Length == 9
      modifies buf
      ensures Valid()
      ensures buf[..] == Descriptor(hex[..8])
    {
      var ptr := SerialStringOffset;
      for chr := 0 to 8
        invariant Valid() && ptr == SerialStringOffset + 2 * chr
        invariant buf[..ptr] == [UsbSerialBytes as Byte, StringDescriptorType] + Utf16Le(hex[..chr])
      {
        Utf16LeSnoc(hex[..chr], hex[chr]);
        assert hex[..chr + 1] == hex[..chr] + [hex[chr]];
        ptr := PutPair(buf, ptr, hex[chr], 0x00);
      }
      assert buf[..] == buf[..ptr];
    }

    /**
     * set_usb_serial_uuid, with the UUID that get_mcu_uuid would read given
     * as `id`: hash, render, and write. The string part of usb_serial then
     * decodes to the hex of the UUID's FNV-1a hash.
     */
    method SetUuid(id: array<Word>)
      requires Valid() && id.Length == 3
      modifies buf
      ensures Valid()
      ensures buf[..] == Descriptor(UuidSerial(id[..]))
      ensures ParseHex(SerialChars(buf[..])) == Some(Fnv1a(UuidBytes(id[..])))
    {
      var hash := ConvUuidU32(id);
      var hexStr := new Byte[9];
      ConvU32HexStr(hash, hexStr);
      SetU32Hex(hexStr);
      assert hexStr[..8] == UuidSerial(id[..]);
      UuidSerialReadsBack(id[..]);
    }
  }
}
