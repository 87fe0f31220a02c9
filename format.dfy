/** Bytes and the conversion of small integers to them. */
module Bytes {
  /** A byte of the archive. */
  type byte = bv8

  /** An integer below 256 survives the conversion to a byte and back. */
  lemma ByteOfInt(n: int)
    requires 0 <= n < 0x100
    ensures (n as byte) as int == n
  {
  }

  /** A byte survives the conversion to an integer and back. */
  lemma IntOfByte(b: byte)
    ensures (b as int) as byte == b
  {
  }
}

/** On-disk layout of an AZP archive: constants, the 16-byte header and the
    table-of-contents entry (azp.h, with the constants azp.c defines). */
module Format {
  import opened Bytes
  import opened Seqs

  /** A possibly missing value: the source's NULL returns. */
  datatype Option<T> = None | Some(value: T)

  /** The source's `uint32_t`. */
  type u32 = x: int | 0 <= x < 0x1_0000_0000

  const TwoTo32: int := 0x1_0000_0000

  /** Header magic: the bytes 'A', 'Z', 'P', 0x01 read as a little-endian word. */
  const Magic: u32 := 0x01505A41
  /** Key the TOC cipher starts from, on both the read and the write path. */
  const CipherKey: bv32 := 0xF69DA025
  /** Format revision written into new archives. */
  const Version: u32 := 6
  /** Largest block the payload copy moves at once. */
  const ChunkSize: nat := 16384
  /** The first four bytes of every archive: 'A', 'Z', 'P', 0x01. */
  const AzpBytes: seq<byte> := [0x41, 0x5A, 0x50, 0x01]
  /** Size of the header: four 32-bit words. */
  const HeaderSize: nat := 16
  /** Bytes of an on-disk TOC record besides the filename: four 32-bit words. */
  const EntryFixedSize: nat := 16
  /** Size of the in-memory filename buffer (`NAME_MAX` on Linux). */
  const NameMax: nat := 255
  /** `sizeof` of the in-memory entry record with the layout of azp.h:
      a word, `NAME_MAX` chars padded to a word boundary, three words. */
  const EntryStructSize: nat := 4 + 256 + 12

  /** `uint32_t` arithmetic: the value modulo 2^32. */
  function Wrap32(n: int): u32 {
    n % TwoTo32
  }

  /** Reducing a partial sum before adding more gives the same `uint32_t` sum. */
  lemma WrapAdd(a: int, b: int)
    ensures Wrap32(Wrap32(a) + b) == Wrap32(a + b)
  {
    var q := a / TwoTo32;
    assert a == q * TwoTo32 + Wrap32(a);
  }

  /** The header; as a union it is also the four words in field order. */
  datatype Header = Header(magic: u32, dataOffset: u32, version: u32, fileCount: u32)

  /** One TOC entry. `filename` holds the name's bytes without a terminator. */
  datatype Entry = Entry(
    filenameLength: u32,
    filename: seq<byte>,
    offset: u32,
    compressedSize: u32,
    uncompressedSize: u32)

  /** The `data[4]` view of the header union. */
  function Words(h: Header): (w: seq<u32>)
    ensures |w| == 4
  {
    [h.magic, h.dataOffset, h.version, h.fileCount]
  }

  /** The low `n` bytes of `v`, least significant first. */
  function ToLittleEndian(v: nat, n: nat): (b: seq<byte>)
    ensures |b| == n
  {
    if n == 0 then [] else [(v % 0x100) as byte] + ToLittleEndian(v / 0x100, n - 1)
  }

  /** A 32-bit word as it is laid out in memory on a little-endian host. */
  function LE32(v: u32): (b: seq<byte>)
    ensures |b| == 4
  {
    ToLittleEndian(v, 4)
  }

  function Power256(n: nat): (p: nat)
    ensures p >= 1
  {
    if n == 0 then 1 else 0x100 * Power256(n - 1)
  }

  /** The value of bytes read least significant first. */
  function LittleEndian(b: seq<byte>): (v: nat)
    ensures v < Power256(|b|)
  {
    if b == [] then 0 else b[0] as int + 0x100 * LittleEndian(b[1..])
  }

  /** Four bytes assembled as `b[3] << 24 | b[2] << 16 | b[1] << 8 | b[0]`. */
  function FromLE32(b: seq<byte>): (v: u32)
    requires |b| == 4
  {
    assert Power256(4) == TwoTo32;
    LittleEndian(b)
  }

  /** A value below `256^n` written as `n` bytes reads back as itself. */
  lemma {:induction false} LittleEndianOfBytes(v: nat, n: nat)
    requires v < Power256(n)
    ensures LittleEndian(ToLittleEndian(v, n)) == v
    decreases n
  {
    if n > 0 {
      var b := ToLittleEndian(v, n);
      var q := v / 0x100;
      assert q < Power256(n - 1);
      LittleEndianOfBytes(q, n - 1);
      ByteOfInt(v % 0x100);
      assert b[1..] == ToLittleEndian(q, n - 1);
    }
  }

  /** Bytes read as a value and written back as many bytes are the same bytes. */
  lemma {:induction false} BytesOfLittleEndian(b: seq<byte>)
    ensures ToLittleEndian(LittleEndian(b), |b|) == b
    decreases |b|
  {
    if |b| > 0 {
      var q := LittleEndian(b[1..]);
      var v := LittleEndian(b);
      assert v == b[0] as int + 0x100 * q;
      assert v / 0x100 == q && v % 0x100 == b[0] as int;
      IntOfByte(b[0]);
      BytesOfLittleEndian(b[1..]);
      HeadTail(b);
    }
  }

  /** Writing back a word that was read gives the bytes it was read from. */
  lemma LE32OfFromLE32(b: seq<byte>)
    requires |b| == 4
    ensures LE32(FromLE32(b)) == b
  {
    BytesOfLittleEndian(b);
  }

  /** Four bytes read as the magic exactly when they are 'A', 'Z', 'P', 0x01. */
  lemma MagicOnlyFromAzp(b: seq<byte>)
    requires |b| == 4
    ensures FromLE32(b) == Magic <==> b == AzpBytes
  {
    MagicIsAzp();
    LE32OfFromLE32(b);
  }

  /** Reading back a word that was written gives the word. */
  lemma FromLE32OfLE32(v: u32)
    ensures FromLE32(LE32(v)) == v
  {
    assert Power256(4) == TwoTo32;
    LittleEndianOfBytes(v, 4);
  }

  /** The magic is the four bytes 'A', 'Z', 'P', 0x01, and those bytes read as the magic. */
  lemma MagicIsAzp()
    ensures LE32(Magic) == AzpBytes
    ensures FromLE32(AzpBytes) == Magic
  {
    MagicBytes();
    FromLE32OfLE32(Magic);
  }

  lemma MagicBytes()
    ensures LE32(Magic) == AzpBytes
  {
    assert ToLittleEndian(0x01, 1) == [0x01];
    assert ToLittleEndian(0x0150, 2) == [0x50, 0x01];
    assert ToLittleEndian(0x01505A, 3) == [0x5A, 0x50, 0x01];
  }

  /** The words of a sequence, each in little-endian order, one after another. */
  function WordBytes(w: seq<u32>): (b: seq<byte>)
    ensures |b| == 4 * |w|
  {
    if w == [] then [] else LE32(w[0]) + WordBytes(w[1..])
  }

  /** The 16 bytes of `fwrite(header, sizeof(uint32_t), 4, f)`. */
  function HeaderBytes(h: Header): (b: seq<byte>)
    ensures |b| == HeaderSize
  {
    WordBytes(Words(h))
  }

  /** The header a `memcpy` of the first 16 bytes of `b` produces. */
  function ParseHeader(b: seq<byte>): Header
    requires |b| >= HeaderSize
  {
    Header(FromLE32(b[0..4]), FromLE32(b[4..8]), FromLE32(b[8..12]), FromLE32(b[12..16]))
  }

  lemma HeaderBytesSplit(h: Header)
    ensures HeaderBytes(h) == LE32(h.magic) + LE32(h.dataOffset) + LE32(h.version) + LE32(h.fileCount)
  {
    var w0 := Words(h);
    var w1 := w0[1..];
    var w2 := w1[1..];
    var w3 := w2[1..];
    var a, b, c, d := LE32(h.magic), LE32(h.dataOffset), LE32(h.version), LE32(h.fileCount);
    assert WordBytes(w3[1..]) == [];
    AppendNil(d, []);
    assert WordBytes(w2) == c + d;
    assert WordBytes(w0) == a + (b + (c + d));
    AppendAssoc(b, c, d);
    AppendAssoc(a, b + c, d);
    AppendAssoc(a, b, c);
  }

  /** Parsing the bytes a header was written as, followed by anything, gives the header. */
  lemma ParseHeaderBytes(h: Header, rest: seq<byte>)
    ensures ParseHeader(HeaderBytes(h) + rest) == h
  {
    HeaderBytesSplit(h);
    var b := HeaderBytes(h) + rest;
    assert b[0..4] == LE32(h.magic);
    assert b[4..8] == LE32(h.dataOffset);
    assert b[8..12] == LE32(h.version);
    assert b[12..16] == LE32(h.fileCount);
    FromLE32OfLE32(h.magic);
    FromLE32OfLE32(h.dataOffset);
    FromLE32OfLE32(h.version);
    FromLE32OfLE32(h.fileCount);
  }
}
