/** The ciphered table of contents: how `azp_compress_files` writes one run of
    TOC records and how `azp_get_file_list` reads it back (azp.c). Each record
    is five fields, ciphered in the order length, name, offset, compressed size,
    uncompressed size, with one key threaded through every field of every
    record.

    The layout is stated for any field cipher that keeps lengths; the archive
    uses `TocCipher.Cipher`. The round-trip lemmas ask of the cipher only the
    law `SelfInverse`, which `CipherSelfInverse` proves for `azp_cipher`. */
module Toc {
  import opened Bytes
  import opened Format
  import opened TocCipher
  import opened Seqs

  /** A cipher with the shape of `azp_cipher`: a run of bytes and a key in,
      as many bytes and the next key out. */
  type FieldCipher = c: (seq<byte>, bv32) -> Keyed | forall p: seq<byte>, k: bv32 :: |c(p, k).out| == |p|
    witness (p: seq<byte>, k: bv32) => Keyed(p, k)

  /** Deciphering from the enciphering key, or its swap, restores a non-empty
      run and leaves the swap of the key the encipher left. */
  ghost predicate SelfInverse(c: FieldCipher) {
    forall p: seq<byte>, e: bv32, d: bv32 | |p| > 0 && (d == e || d == Swap(e)) ::
      c(c(p, e).out, d) == Keyed(p, Swap(c(p, e).key))
  }

  /** `azp_cipher` is a field cipher with that law. */
  lemma CipherSelfInverse()
    ensures SelfInverse(Cipher)
  {
    forall p: seq<byte>, e: bv32, d: bv32 | |p| > 0 && (d == e || d == Swap(e))
      ensures Cipher(Cipher(p, e).out, d) == Keyed(p, Swap(Cipher(p, e).key))
    {
      CipherInverse(p, e, d);
    }
  }

  /** The filename as `snprintf("%s")` copies it: up to the first NUL byte. */
  function UntilNul(s: seq<byte>): (r: seq<byte>)
    ensures 0 !in r && r <= s
    ensures |r| < |s| ==> s[|r|] == 0
  {
    if s == [] || s[0] == 0 then [] else [s[0]] + UntilNul(s[1..])
  }

  /** TOC bytes a run of entries occupies: four words and the name each. */
  function TocSize(es: seq<Entry>): nat {
    if es == [] then 0 else EntryFixedSize + es[0].filenameLength + TocSize(es[1..])
  }

  /** An entry the writer can cipher: its length field does not run past its name. */
  predicate Writable(e: Entry) {
    e.filenameLength <= |e.filename|
  }

  predicate AllWritable(es: seq<Entry>) {
    forall i | 0 <= i < |es| :: Writable(es[i])
  }

  /** Bytes in a run of fields. */
  function TotalLength(fs: seq<seq<byte>>): nat {
    if fs == [] then 0 else |fs[0]| + TotalLength(fs[1..])
  }

  /** Separate cipher calls, one per field, each from the key the previous
      call left; a zero-length field is a call that writes nothing. */
  function Thread(c: FieldCipher, fs: seq<seq<byte>>, key: bv32): (r: Keyed)
    ensures |r.out| == TotalLength(fs)
  {
    if fs == [] then Keyed([], key)
    else
      var first := c(fs[0], key);
      var rest := Thread(c, fs[1..], first.key);
      Keyed(first.out + rest.out, rest.key)
  }

  /** The fields of one record in the order the writer ciphers them. */
  function Fields(e: Entry): (fs: seq<seq<byte>>)
    requires Writable(e)
    ensures |fs| == 5
  {
    [LE32(e.filenameLength), e.filename[..e.filenameLength], LE32(e.offset),
     LE32(e.compressedSize), LE32(e.uncompressedSize)]
  }

  /** The fields of a run of records, one record after another. */
  function TocFields(es: seq<Entry>): (fs: seq<seq<byte>>)
    requires AllWritable(es)
    ensures TotalLength(fs) == TocSize(es)
  {
    if es == [] then []
    else
      assert AllWritable(es[1..]) by { TailIndex(es); }
      FieldsLength(es[0]);
      TotalAppend(Fields(es[0]), TocFields(es[1..]));
      Fields(es[0]) + TocFields(es[1..])
  }

  /** One record as the writer ciphers it, from `key`. */
  function EncodeEntry(c: FieldCipher, e: Entry, key: bv32): (r: Keyed)
    requires Writable(e)
    ensures |r.out| == EntryFixedSize + e.filenameLength
  {
    FieldsLength(e);
    Thread(c, Fields(e), key)
  }

  /** A run of records, the key carried from each field into the next and
      from each record into the next. */
  function EncodeToc(c: FieldCipher, es: seq<Entry>, key: bv32): (r: Keyed)
    requires AllWritable(es)
    ensures |r.out| == TocSize(es)
  {
    Thread(c, TocFields(es), key)
  }

  /** A record's fields are four words and the first `filenameLength` bytes
      of its name. */
  lemma FieldsLength(e: Entry)
    requires Writable(e)
    ensures TotalLength(Fields(e)) == EntryFixedSize + e.filenameLength
  {
    var f0 := Fields(e);
    var f1 := f0[1..];
    var f2 := f1[1..];
    var f3 := f2[1..];
    var f4 := f3[1..];
    assert TotalLength(f4[1..]) == 0;
    assert TotalLength(f3) == 4 + TotalLength(f4);
    assert TotalLength(f1) == e.filenameLength + TotalLength(f2);
  }

  lemma {:induction false} TotalAppend(a: seq<seq<byte>>, b: seq<seq<byte>>)
    ensures TotalLength(a + b) == TotalLength(a) + TotalLength(b)
    decreases |a|
  {
    if |a| == 0 {
      AppendEmpty(a, b);
    } else {
      ConsAppend(a, b);
      TotalAppend(a[1..], b);
    }
  }

  /** One step of the writer: the first field's cipher call, then the rest
      from the key it left; anything written after follows the rest. */
  lemma ThreadStep(c: FieldCipher, fs: seq<seq<byte>>, key: bv32, t: seq<byte>)
    requires |fs| > 0
    ensures var first := c(fs[0], key); var rest := Thread(c, fs[1..], first.key);
      Thread(c, fs, key).out + t == first.out + (rest.out + t) && Thread(c, fs, key).key == rest.key
  {
    var first := c(fs[0], key);
    AppendAssoc(first.out, Thread(c, fs[1..], first.key).out, t);
  }

  /** Ciphering two runs of fields one after the other, the key carried over,
      is ciphering their concatenation. */
  lemma {:induction false} ThreadAppend(c: FieldCipher, a: seq<seq<byte>>, b: seq<seq<byte>>, key: bv32,
                                        ta: Keyed, tb: Keyed)
    requires ta == Thread(c, a, key) && tb == Thread(c, b, ta.key)
    ensures Thread(c, a + b, key) == Keyed(ta.out + tb.out, tb.key)
    decreases |a|
  {
    if |a| == 0 {
      AppendEmpty(a, b);
      AppendEmpty(ta.out, tb.out);
    } else {
      var first := c(a[0], key);
      var rest := Thread(c, a[1..], first.key);
      ConsAppend(a, b);
      ThreadAppend(c, a[1..], b, first.key, rest, tb);
      AppendAssoc(first.out, rest.out, tb.out);
    }
  }

  /** The filename length the reader deciphers from the front of `s`. */
  function LengthAt(c: FieldCipher, s: seq<byte>, key: bv32): u32
    requires 4 <= |s|
  {
    FromLE32(c(s[..4], key).out)
  }

  /** The reader does not check its reads (it reads whatever lies at the
      position); the model asks of the archive that every field of the record
      at the front of `s` lies inside it and that the deciphered length is at
      least 1 (a zero-length cipher call yields NULL) and below the name
      buffer's size. */
  predicate EntryReadable(c: FieldCipher, s: seq<byte>, key: bv32) {
    4 <= |s| &&
    var len := LengthAt(c, s, key);
    1 <= len < NameMax && EntryFixedSize + len <= |s|
  }

  /** Fields read off the front of a run of bytes, the bytes after them, and
      the key after them. */
  datatype Read = Read(fields: seq<seq<byte>>, rest: seq<byte>, key: bv32)

  function SumSizes(sizes: seq<nat>): nat {
    if sizes == [] then 0 else sizes[0] + SumSizes(sizes[1..])
  }

  /** Separate cipher calls, each deciphering the next `sizes[i]` bytes from
      the key the previous call left. */
  function ReadFields(c: FieldCipher, s: seq<byte>, key: bv32, sizes: seq<nat>): (r: Read)
    requires SumSizes(sizes) <= |s|
    ensures |r.fields| == |sizes| && r.rest == s[SumSizes(sizes)..]
    ensures forall i | 0 <= i < |sizes| :: |r.fields[i]| == sizes[i]
    decreases |sizes|
  {
    if sizes == [] then Read([], s, key)
    else
      DropDrop(s, sizes[0], SumSizes(sizes[1..]));
      var first := c(s[..sizes[0]], key);
      var more := ReadFields(c, s[sizes[0]..], first.key, sizes[1..]);
      Read([first.out] + more.fields, more.rest, more.key)
  }

  /** The first field read is the first cipher call's output. */
  lemma ReadFieldsFirst(c: FieldCipher, s: seq<byte>, key: bv32, sizes: seq<nat>)
    requires |sizes| > 0 && SumSizes(sizes) <= |s|
    ensures ReadFields(c, s, key, sizes).fields[0] == c(s[..sizes[0]], key).out
  {
  }

  /** Reading a first field of `h` bytes, then the fields `tl`. */
  lemma ReadFieldsCons(c: FieldCipher, s: seq<byte>, key: bv32, h: nat, tl: seq<nat>, more: Read)
    requires h + SumSizes(tl) <= |s|
    requires more == ReadFields(c, s[h..], c(s[..h], key).key, tl)
    ensures SumSizes([h] + tl) == h + SumSizes(tl)
    ensures ReadFields(c, s, key, [h] + tl) == Read([c(s[..h], key).out] + more.fields, more.rest, more.key)
  {
    assert ([h] + tl)[1..] == tl;
  }

  /** The sizes of a record's fields once its length field reads `n`. */
  function EntrySizes(n: nat): (sizes: seq<nat>)
    ensures |sizes| == 5 && sizes[0] == 4 && sizes[1] == n && SumSizes(sizes) == EntryFixedSize + n
  {
    var sizes := [4, n, 4, 4, 4];
    var s1 := sizes[1..];
    var s2 := s1[1..];
    var s3 := s2[1..];
    var s4 := s3[1..];
    assert SumSizes(s4[1..]) == 0;
    assert SumSizes(s3) == 8;
    assert SumSizes(s1) == n + 12;
    sizes
  }

  /** A decoded record, the bytes after it, and the key after it. */
  datatype Decoded = Decoded(entry: Entry, rest: seq<byte>, key: bv32)

  /** The record at the front of `s`: the length field is deciphered first to
      learn the name's size, then the five fields are read in order, the key
      advancing past each. */
  function DecodeEntry(c: FieldCipher, s: seq<byte>, key: bv32): (r: Decoded)
    requires EntryReadable(c, s, key)
    ensures r.entry.filenameLength == LengthAt(c, s, key)
    ensures r.rest == s[EntryFixedSize + r.entry.filenameLength..]
  {
    var n := LengthAt(c, s, key);
    var f := ReadFields(c, s, key, EntrySizes(n));
    Decoded(
      Entry(n, UntilNul(f.fields[1]), FromLE32(f.fields[2]), FromLE32(f.fields[3]), FromLE32(f.fields[4])),
      f.rest, f.key)
  }

  /** `count` records can be read one after another from the front of `s`. */
  predicate TocReadable(c: FieldCipher, s: seq<byte>, key: bv32, count: nat)
    decreases count
  {
    count == 0 ||
    (EntryReadable(c, s, key) &&
     var d := DecodeEntry(c, s, key);
     TocReadable(c, d.rest, d.key, count - 1))
  }

  /** The `count` records read from the front of `s`. */
  function DecodeToc(c: FieldCipher, s: seq<byte>, key: bv32, count: nat): (r: seq<Entry>)
    requires TocReadable(c, s, key, count)
    ensures |r| == count
    decreases count
  {
    if count == 0 then []
    else
      var d := DecodeEntry(c, s, key);
      [d.entry] + DecodeToc(c, d.rest, d.key, count - 1)
  }

  /** An entry that survives a write and a read unchanged: the length field is
      the name's length, at least 1 and below the name buffer's size, and the
      name holds no NUL (it came from a C string). */
  predicate RoundTrips(e: Entry) {
    e.filenameLength == |e.filename| && 1 <= |e.filename| < NameMax && 0 !in e.filename
  }

  predicate AllRoundTrip(es: seq<Entry>) {
    AllWritable(es) && forall i | 0 <= i < |es| :: RoundTrips(es[i])
  }

  /** A record is at least 17 bytes: four words and a name of one byte or more. */
  lemma {:induction false} ReadableSize(c: FieldCipher, s: seq<byte>, key: bv32, count: nat)
    requires TocReadable(c, s, key, count)
    ensures (EntryFixedSize + 1) * count <= |s|
    decreases count
  {
    if count > 0 {
      var d := DecodeEntry(c, s, key);
      ReadableSize(c, d.rest, d.key, count - 1);
      assert |d.rest| == |s| - EntryFixedSize - d.entry.filenameLength;
    }
  }

  /** A name without NUL bytes is copied whole. */
  lemma {:induction false} UntilNulWhole(s: seq<byte>)
    requires 0 !in s
    ensures UntilNul(s) == s
  {
    if s != [] {
      assert s[0] in s;
      assert forall x | x in s[1..] :: x in s;
      UntilNulWhole(s[1..]);
      HeadTail(s);
    }
  }

  /** Reading fields back, with their own sizes, from the front of what the
      writer ciphered (`w`) followed by anything, from the writer's key or its
      swap, gives the fields, the bytes that follow, and the swap of the key
      the writer ended with. Every field must be non-empty: a zero-length
      cipher call leaves the key alone rather than swapping it. */
  lemma {:induction false} ReadThread(c: FieldCipher, fs: seq<seq<byte>>, sizes: seq<nat>, encKey: bv32,
                                      decKey: bv32, w: Keyed, t: seq<byte>)
    requires SelfInverse(c) && w == Thread(c, fs, encKey)
    requires decKey == encKey || decKey == Swap(encKey)
    requires |sizes| == |fs| > 0 && forall i | 0 <= i < |fs| :: sizes[i] == |fs[i]| > 0
    ensures SumSizes(sizes) <= |w.out + t|
    ensures ReadFields(c, w.out + t, decKey, sizes) == Read(fs, t, Swap(w.key))
    decreases |fs|
  {
    var first := c(fs[0], encKey);
    var rest := Thread(c, fs[1..], first.key);
    ThreadStep(c, fs, encKey, t);
    SplitFront(first.out, rest.out + t);
    TailIndex(fs);
    TailIndex(sizes);
    if |fs[1..]| == 0 {
      assert rest == Keyed([], first.key);
      AppendEmpty(rest.out, t);
      assert sizes[1..] == [];
    } else {
      ReadThread(c, fs[1..], sizes[1..], first.key, Swap(first.key), rest, t);
    }
    HeadTail(fs);
  }

  /** Reading a record back from the front of what a writer produced, with
      the key the writer started from or its swap, gives the record, the
      bytes that follow, and the swap of the key the writer ended with. */
  lemma DecodeEncodeEntry(c: FieldCipher, e: Entry, encKey: bv32, decKey: bv32, t: seq<byte>)
    requires SelfInverse(c) && RoundTrips(e)
    requires decKey == encKey || decKey == Swap(encKey)
    ensures var s := EncodeEntry(c, e, encKey).out + t;
      EntryReadable(c, s, decKey) && DecodeEntry(c, s, decKey) == Decoded(e, t, Swap(EncodeEntry(c, e, encKey).key))
  {
    var n := e.filenameLength;
    var fs := Fields(e);
    var w := EncodeEntry(c, e, encKey);
    var s := w.out + t;
    var sizes := EntrySizes(n);
    SplitFront(e.filename, []);
    AppendNil(e.filename, []);
    assert fs[1] == e.filename;
    ReadThread(c, fs, sizes, encKey, decKey, w, t);
    var f := ReadFields(c, s, decKey, sizes);
    // The length field is the first field read.
    ReadFieldsFirst(c, s, decKey, sizes);
    FromLE32OfLE32(n);
    assert LengthAt(c, s, decKey) == n;
    FromLE32OfLE32(e.offset);
    FromLE32OfLE32(e.compressedSize);
    FromLE32OfLE32(e.uncompressedSize);
    UntilNulWhole(e.filename);
  }

  /** Reading `m + 1` records is reading the first and then `m` more. */
  lemma DecodeTocCons(c: FieldCipher, s: seq<byte>, key: bv32, m: nat, d: Decoded)
    requires EntryReadable(c, s, key) && DecodeEntry(c, s, key) == d
    requires TocReadable(c, d.rest, d.key, m)
    ensures TocReadable(c, s, key, m + 1)
    ensures DecodeToc(c, s, key, m + 1) == [d.entry] + DecodeToc(c, d.rest, d.key, m)
  {
  }

  /** Writing a run of records is writing the first record and then the
      rest, from the key the first one left. */
  lemma EncodeTocCons(c: FieldCipher, es: seq<Entry>, key: bv32)
    requires es != [] && AllWritable(es)
    ensures AllWritable(es[1..])
    ensures var first := EncodeEntry(c, es[0], key); var rest := EncodeToc(c, es[1..], first.key);
      EncodeToc(c, es, key) == Keyed(first.out + rest.out, rest.key)
  {
    TailIndex(es);
    var first := EncodeEntry(c, es[0], key);
    ThreadAppend(c, Fields(es[0]), TocFields(es[1..]), key, first, EncodeToc(c, es[1..], first.key));
  }

  /** The records `es`, written from `encKey` and followed by `t`, are read
      back whole by a reader starting from `decKey`. */
  predicate ReadsBack(c: FieldCipher, es: seq<Entry>, encKey: bv32, decKey: bv32, t: seq<byte>) {
    AllWritable(es) &&
    var s := EncodeToc(c, es, encKey).out + t;
    TocReadable(c, s, decKey, |es|) && DecodeToc(c, s, decKey, |es|) == es
  }

  /** One record in front of a run that reads back reads back as well. */
  lemma DecodeEncodeTocStep(c: FieldCipher, es: seq<Entry>, encKey: bv32, decKey: bv32, t: seq<byte>)
    requires SelfInverse(c) && es != [] && AllWritable(es) && RoundTrips(es[0])
    requires decKey == encKey || decKey == Swap(encKey)
    requires var k := EncodeEntry(c, es[0], encKey).key; ReadsBack(c, es[1..], k, Swap(k), t)
    ensures ReadsBack(c, es, encKey, decKey, t)
  {
    EncodeTocCons(c, es, encKey);
    var first := EncodeEntry(c, es[0], encKey);
    var rest := EncodeToc(c, es[1..], first.key);
    var s := EncodeToc(c, es, encKey).out + t;
    AppendAssoc(first.out, rest.out, t);
    DecodeEncodeEntry(c, es[0], encKey, decKey, rest.out + t);
    DecodeTocCons(c, s, decKey, |es[1..]|, Decoded(es[0], rest.out + t, Swap(first.key)));
    HeadTail(es);
  }

  /** TOC round trip: the records a writer ciphered from a key are read back,
      field for field, by a reader starting from that key (or its swap), from
      the front of the writer's bytes followed by anything. */
  lemma {:induction false} DecodeEncodeToc(c: FieldCipher, es: seq<Entry>, encKey: bv32, decKey: bv32, t: seq<byte>)
    requires SelfInverse(c) && AllRoundTrip(es)
    requires decKey == encKey || decKey == Swap(encKey)
    ensures ReadsBack(c, es, encKey, decKey, t)
    decreases |es|
  {
    if es != [] {
      TailIndex(es);
      var k := EncodeEntry(c, es[0], encKey).key;
      DecodeEncodeToc(c, es[1..], k, Swap(k), t);
      DecodeEncodeTocStep(c, es, encKey, decKey, t);
    }
  }
}
