/** What the reader makes of an archive the writer produced: the header is
    accepted, the TOC decodes to the placed entries, and each payload sits
    at the offset its entry records. */
module RoundTrip {
  import opened Bytes
  import opened Format
  import opened Seqs
  import opened TocCipher
  import opened Toc
  import opened Pack
  import opened Unpack

  /** An entry as its TOC record carries it: the name cut to its length
      field (the writer ciphers `filename_length` bytes of the name). */
  function Recorded(e: Entry): (r: Entry)
    requires Writable(e)
    ensures Writable(r) && Fields(r) == Fields(e)
  {
    assert e.filename[..e.filenameLength][..e.filenameLength] == e.filename[..e.filenameLength];
    e.(filename := e.filename[..e.filenameLength])
  }

  function AllRecorded(es: seq<Entry>): (rs: seq<Entry>)
    requires AllWritable(es)
    ensures |rs| == |es| && forall i | 0 <= i < |es| :: rs[i] == Recorded(es[i])
  {
    seq(|es|, i requires 0 <= i < |es| => Recorded(es[i]))
  }

  /** Cutting every name to its length field leaves the record bytes alone. */
  lemma {:induction false} TocFieldsRecorded(es: seq<Entry>)
    requires AllWritable(es)
    ensures AllWritable(AllRecorded(es)) && TocFields(AllRecorded(es)) == TocFields(es)
    decreases |es|
  {
    var rs := AllRecorded(es);
    if es != [] {
      TailIndex(es);
      assert rs[1..] == AllRecorded(es[1..]);
      TocFieldsRecorded(es[1..]);
    }
  }

  /** Every compression succeeds: the loop runs past every entry. */
  lemma AllCompressedRunsThrough(cs: seq<Compression>)
    requires AllCompressed(cs)
    ensures FirstFailure(cs) == |cs|
  {
  }

  /** What the reader decodes for entry `i` of a file list packed with
      every compression succeeding: the entry with the offset and the
      compressed size the writer filled in. */
  function Packed(es: seq<Entry>, cs: seq<Compression>, offset: u32, i: nat): Entry
    requires |es| == |cs| && i < |es| && cs[i].Compressed?
  {
    es[i].(offset := Wrap32(offset + Sizes(cs[..i])), compressedSize := cs[i].size)
  }

  /** One record of a packed list, as the reader decodes it. */
  lemma PackedRecord(es: seq<Entry>, cs: seq<Compression>, offset: u32, i: nat)
    requires |es| == |cs| && AllRoundTrip(es) && AllCompressed(cs) && i < |es|
    ensures var r := Settle(es, cs, offset)[i];
      Writable(r) && Recorded(r) == Packed(es, cs, offset, i) && RoundTrips(Recorded(r))
  {
    AllCompressedRunsThrough(cs);
    SettlePlaced(es, cs, offset, i);
    var e := es[i];
    assert (e.filename + TmpSuffix)[..|e.filename|] == e.filename;
  }

  /** The records of a packed list, as the reader decodes them, are the
      entries of the list with their offsets and sizes filled in. */
  lemma PackedRecords(es: seq<Entry>, cs: seq<Compression>, offset: u32)
    requires |es| == |cs| && AllRoundTrip(es) && AllCompressed(cs)
    ensures AllWritable(Settle(es, cs, offset))
    ensures var rs := AllRecorded(Settle(es, cs, offset));
      AllRoundTrip(rs) && forall i | 0 <= i < |es| :: rs[i] == Packed(es, cs, offset, i)
  {
    var r := Settle(es, cs, offset);
    forall i | 0 <= i < |es|
      ensures Writable(r[i]) && Recorded(r[i]) == Packed(es, cs, offset, i) && RoundTrips(Recorded(r[i]))
    {
      PackedRecord(es, cs, offset, i);
    }
  }

  /** A file list that round-trips, packed with every compression
      succeeding under a header with the magic and the list's length as its
      count, followed by any payload bytes: the header check accepts it and
      hands the header back, the on-disk size check lets it through, and the
      TOC decodes to the list with its offsets and compressed sizes. */
  lemma PackThenRead(old_h: Header, h: Header, es: seq<Entry>, cs: seq<Compression>, payload: seq<byte>)
    requires |es| == |cs| == h.fileCount && AllRoundTrip(es) && AllCompressed(cs) && h.magic == Magic
    ensures var a := HeaderBytes(h) + TocOut(Cipher, es, cs, h.dataOffset, CipherKey).out + payload;
      CheckHeader(old_h, a) == HeaderCheck(true, h) &&
      ArchiveReadable(h, a) && !RejectedBySize(h, a) &&
      var list := DecodeToc(Cipher, TocBytes(a), CipherKey, h.fileCount);
      |list| == |es| && forall i | 0 <= i < |es| :: list[i] == Packed(es, cs, h.dataOffset, i)
  {
    var d := h.dataOffset;
    var r := Settle(es, cs, d);
    AllCompressedRunsThrough(cs);
    PackedRecords(es, cs, d);
    TocOutEncodes(Cipher, es, cs, d, CipherKey);
    assert r[..FirstFailure(cs)] == r;
    var rs := AllRecorded(r);
    TocFieldsRecorded(r);
    var t := TocOut(Cipher, es, cs, d, CipherKey).out;
    assert t == EncodeToc(Cipher, rs, CipherKey).out;
    var hb := HeaderBytes(h);
    var a := hb + t + payload;
    AppendAssoc(hb, t, payload);
    SplitFront(hb, t + payload);
    assert TocBytes(a) == t + payload;
    CheckWrittenHeader(old_h, h, t + payload);
    CipherSelfInverse();
    DecodeEncodeToc(Cipher, rs, CipherKey, CipherKey, payload);
    SizeCheckKeepsReadable(h, a);
  }

  /** The TOC of placed entries takes as many bytes as that of the list. */
  lemma {:induction false} TocSizeSettle(es: seq<Entry>, cs: seq<Compression>, offset: u32)
    requires |es| == |cs| && AllCompressed(cs)
    ensures TocSize(Settle(es, cs, offset)) == TocSize(es)
    decreases |es|
  {
    if es != [] {
      TailIndex(cs);
      TocSizeSettle(es[1..], cs[1..], Wrap32(offset + cs[0].size));
    }
  }

  /** The same archive under the size check as written: it is readable, so
      `GetFileList` returns its decoded TOC, the packed entries above,
      exactly when the archive holds 272 bytes per entry; a TOC and payloads
      shorter than that are refused. */
  lemma PackThenReadAsWritten(old_h: Header, h: Header, es: seq<Entry>, cs: seq<Compression>, payload: seq<byte>)
    requires |es| == |cs| == h.fileCount && AllRoundTrip(es) && AllCompressed(cs) && h.magic == Magic
    ensures var a := HeaderBytes(h) + TocOut(Cipher, es, cs, h.dataOffset, CipherKey).out + payload;
      ArchiveReadable(h, a) &&
      (!RejectedAsWritten(h, a) <==> HeaderSize + TocSize(es) + |payload| >= h.fileCount * EntryStructSize)
  {
    var d := h.dataOffset;
    PackThenRead(old_h, h, es, cs, payload);
    TocOutLength(es, cs, d);
  }

  /** With every compression succeeding, the records written take the TOC
      size of the list. */
  lemma TocOutLength(es: seq<Entry>, cs: seq<Compression>, offset: u32)
    requires |es| == |cs| && AllWritable(es) && AllCompressed(cs)
    ensures |TocOut(Cipher, es, cs, offset, CipherKey).out| == TocSize(es)
  {
    AllCompressedRunsThrough(cs);
    TocOutEncodes(Cipher, es, cs, offset, CipherKey);
    var r := Settle(es, cs, offset);
    assert r[..FirstFailure(cs)] == r;
    TocSizeSettle(es, cs, offset);
  }

  /** The file `f` opened and holds the entry's payload, and `a` holds
      that payload at the entry's offset. */
  predicate PayloadAt(a: seq<byte>, e: Entry, f: Option<seq<byte>>) {
    f.Some? && e.compressedSize <= |f.value| && e.offset + e.compressedSize <= |a| &&
    a[e.offset..e.offset + e.compressedSize] == f.value[..e.compressedSize]
  }

  lemma PayloadAtHead(pre: seq<byte>, b: seq<byte>, e: Entry, f: Option<seq<byte>>)
    requires f.Some? && e.compressedSize <= |f.value| && |pre| == e.offset
    ensures PayloadAt(pre + f.value[..e.compressedSize] + b, e, f)
  {
    var x := pre + f.value[..e.compressedSize] + b;
    assert x[e.offset..e.offset + e.compressedSize] == f.value[..e.compressedSize];
  }

  /** After `pre`, whose length is the first offset, and with no `uint32_t`
      sum wrapping, each payload the loop appends starts at its entry's
      offset. */
  lemma {:induction false} PayloadsFrom(es: seq<Entry>, cs: seq<Compression>, files: seq<Option<seq<byte>>>,
                                        offset: u32, pre: seq<byte>)
    requires |es| == |cs| == |files| && AllCompressed(cs)
    requires |pre| == offset && offset + Sizes(cs) < TwoTo32
    requires PayloadsReadable(Settle(es, cs, offset), files)
    ensures var r := Settle(es, cs, offset); var a := pre + PayloadOut(r, files);
      forall i | 0 <= i < |r| :: PayloadAt(a, r[i], files[i])
    decreases |es|
  {
    if es != [] {
      var r := Settle(es, cs, offset);
      var size := cs[0].size;
      var offset' := Wrap32(offset + size);
      assert offset' == offset + size;
      var r' := Settle(es[1..], cs[1..], offset');
      assert r == [r[0]] + r';
      TailIndex(cs);
      var head := files[0].value[..size];
      assert PayloadsReadable(r', files[1..]) by {
        forall i | 0 <= i < |r'| ensures files[1..][i].Some? && r'[i].compressedSize <= |files[1..][i].value| {
          assert r'[i] == r[i + 1] && files[1..][i] == files[i + 1];
        }
      }
      var pre' := pre + head;
      PayloadsFrom(es[1..], cs[1..], files[1..], offset', pre');
      var tail := PayloadOut(r', files[1..]);
      assert PayloadOut(r, files) == head + tail;
      AppendAssoc(pre, head, tail);
      var a := pre + PayloadOut(r, files);
      forall i | 0 <= i < |r| ensures PayloadAt(a, r[i], files[i]) {
        if i == 0 {
          PayloadAtHead(pre, tail, r[0], files[0]);
        } else {
          assert r[i] == r'[i - 1] && files[i] == files[1..][i - 1];
        }
      }
    }
  }

  /** In an archive that `CompressFiles` wrote whole, with the data offset
      right after the TOC (as `azp_make_file_list` computes it) and no
      `uint32_t` sum wrapping, the bytes at each entry's offset, where the
      extractor starts inflating, are that entry's payload. */
  lemma PayloadsAtOffsets(h: Header, es: seq<Entry>, cs: seq<Compression>, files: seq<Option<seq<byte>>>)
    requires |es| == |cs| == |files| && AllWritable(es) && AllCompressed(cs)
    requires h.dataOffset == HeaderSize + TocSize(es) && h.dataOffset + Sizes(cs) < TwoTo32
    requires PayloadsReadable(Settle(es, cs, h.dataOffset), files)
    ensures var r := Settle(es, cs, h.dataOffset);
      var a := HeaderBytes(h) + TocOut(Cipher, es, cs, h.dataOffset, CipherKey).out + PayloadOut(r, files);
      forall i | 0 <= i < |r| :: PayloadAt(a, r[i], files[i])
  {
    var d := h.dataOffset;
    AllCompressedRunsThrough(cs);
    TocOutEncodes(Cipher, es, cs, d, CipherKey);
    assert Settle(es, cs, d)[..FirstFailure(cs)] == Settle(es, cs, d);
    TocSizeSettle(es, cs, d);
    var pre := HeaderBytes(h) + TocOut(Cipher, es, cs, d, CipherKey).out;
    PayloadsFrom(es, cs, files, d, pre);
  }
}
