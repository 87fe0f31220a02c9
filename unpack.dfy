/** The extraction side of azp.c: the header check, the TOC reader, where an
    extracted file is written, and the extract-all loop. */
module Unpack {
  import opened Bytes
  import opened Format
  import opened Seqs
  import opened TocCipher
  import opened Toc

  // ---------------------------------------------------------------------
  // Header check (`azp_check_header`)
  // ---------------------------------------------------------------------

  /** Whether the archive is accepted, and the caller's header afterwards. */
  datatype HeaderCheck = HeaderCheck(valid: bool, header: Header)

  /** `azp_check_header(&header, archive, |archive|)`. */
  function CheckHeader(header: Header, archive: seq<byte>): (r: HeaderCheck)
    ensures |archive| < HeaderSize ==> r == HeaderCheck(false, header)
    ensures |archive| >= HeaderSize ==> r.header == ParseHeader(archive)
    ensures r.valid <==> HeaderSize <= |archive| && archive[..4] == AzpBytes
  {
    if |archive| < HeaderSize then HeaderCheck(false, header)
    else
      var h := ParseHeader(archive);
      assert archive[0..4] == archive[..4];
      MagicOnlyFromAzp(archive[..4]);
      HeaderCheck(h.magic == Magic, h)
  }

  /** An archive that starts with a written header is accepted exactly when
      that header carries the magic, and the check hands the header back. */
  lemma CheckWrittenHeader(old_h: Header, h: Header, rest: seq<byte>)
    ensures CheckHeader(old_h, HeaderBytes(h) + rest) == HeaderCheck(h.magic == Magic, h)
  {
    ParseHeaderBytes(h, rest);
    var a := HeaderBytes(h) + rest;
    MagicOnlyFromAzp(a[..4]);
    assert a[0..4] == a[..4];
  }

  // ---------------------------------------------------------------------
  // TOC reader (`azp_get_file_list`)
  // ---------------------------------------------------------------------

  /** The bytes from `archive + sizeof(azpHeader_t)` on. */
  function TocBytes(archive: seq<byte>): (t: seq<byte>)
    ensures |archive| >= HeaderSize ==> t == archive[HeaderSize..]
    ensures |t| == if |archive| < HeaderSize then 0 else |archive| - HeaderSize
  {
    if |archive| < HeaderSize then [] else archive[HeaderSize..]
  }

  /** The model's assumption about an archive the reader is given: the
      header's `file_count` records lie inside the archive and decode to
      names that fit the name buffer. The source reads without checking. */
  predicate ArchiveReadable(header: Header, archive: seq<byte>) {
    TocReadable(Cipher, TocBytes(archive), CipherKey, header.fileCount)
  }

  /** The size check of azp.c:33: fewer bytes than `file_count` in-memory
      entry records. */
  predicate RejectedAsWritten(header: Header, archive: seq<byte>) {
    |archive| < header.fileCount * EntryStructSize
  }

  /** A size check against the on-disk format: fewer TOC bytes than
      `file_count` records of at least 17 bytes each. */
  predicate RejectedBySize(header: Header, archive: seq<byte>) {
    |TocBytes(archive)| < (EntryFixedSize + 1) * header.fileCount
  }

  /** The three words after the name: three cipher calls, each from the key
      the previous call left. */
  lemma ReadWords(c: FieldCipher, p: seq<byte>, key: bv32)
    requires 12 <= |p|
    ensures var x := c(p[..4], key); var q := p[4..];
      var y := c(q[..4], x.key); var r := q[4..];
      var z := c(r[..4], y.key);
      ReadFields(c, p, key, [4, 4, 4]) == Read([x.out, y.out, z.out], r[4..], z.key)
  {
    var x := c(p[..4], key); var q := p[4..];
    var y := c(q[..4], x.key); var r := q[4..];
    var z := c(r[..4], y.key);
    var t: seq<nat> := [4];
    AppendNil(t, []);
    ReadFieldsCons(c, r, y.key, 4, [], ReadFields(c, r[4..], z.key, []));
    ReadFieldsCons(c, q, x.key, 4, t, ReadFields(c, r, y.key, t));
    ReadFieldsCons(c, p, key, 4, [4] + t, ReadFields(c, q, x.key, [4] + t));
  }

  /** The fields `azp_get_file_list` deciphers for one entry: five cipher
      calls, each from the key the previous call left. */
  lemma DecodeEntryFields(c: FieldCipher, s: seq<byte>, key: bv32)
    requires EntryReadable(c, s, key)
    ensures var n := LengthAt(c, s, key);
      var a := c(s[..4], key); var p1 := s[4..];
      var b := c(p1[..n], a.key); var p2 := p1[n..];
      var w := ReadFields(c, p2, b.key, [4, 4, 4]);
      DecodeEntry(c, s, key) ==
        Decoded(Entry(n, UntilNul(b.out), FromLE32(w.fields[0]), FromLE32(w.fields[1]), FromLE32(w.fields[2])),
          w.rest, w.key)
  {
    var n := LengthAt(c, s, key);
    var a := c(s[..4], key); var p1 := s[4..];
    var b := c(p1[..n], a.key); var p2 := p1[n..];
    var t2: seq<nat> := [4, 4, 4];
    var w := ReadFields(c, p2, b.key, t2);
    var t1: seq<nat> := [n] + t2;
    assert EntrySizes(n) == [4] + t1;
    ReadFieldsCons(c, p1, a.key, n, t2, w);
    ReadFieldsCons(c, s, key, 4, t1, ReadFields(c, p1, a.key, t1));
  }

  /** One loop pass of `azp_get_file_list`: the five fields of the entry at
      `toc + addr`, each deciphered by its own cipher call from the key the
      previous call left. */
  method ReadEntry(c: FieldCipher, s: seq<byte>, key: bv32) returns (e: Entry, rest: seq<byte>, key': bv32)
    requires EntryReadable(c, s, key)
    ensures Decoded(e, rest, key') == DecodeEntry(c, s, key)
  {
    DecodeEntryFields(c, s, key);
    ReadWords(c, s[4..][LengthAt(c, s, key)..], c(s[4..][..LengthAt(c, s, key)], c(s[..4], key).key).key);
    var p := s;
    var f := c(p[..4], key);
    var len := FromLE32(f.out);
    p := p[4..];
    f := c(p[..len], f.key);
    var name := UntilNul(f.out);
    p := p[len..];
    f := c(p[..4], f.key);
    var offset := FromLE32(f.out);
    p := p[4..];
    f := c(p[..4], f.key);
    var compressed := FromLE32(f.out);
    p := p[4..];
    f := c(p[..4], f.key);
    var uncompressed := FromLE32(f.out);
    p := p[4..];
    e, rest, key' := Entry(len, name, offset, compressed, uncompressed), p, f.key;
  }

  /** The loop state of the reader: `left` more entries are readable from
      `at` with `key`, and the entries decoded so far followed by them are
      `whole`. */
  ghost predicate Pending(c: FieldCipher, at: seq<byte>, key: bv32, left: nat,
                          done: seq<Entry>, whole: seq<Entry>)
  {
    TocReadable(c, at, key, left) && done + DecodeToc(c, at, key, left) == whole
  }

  /** Reading one more entry extends the decoded prefix and keeps the rest
      readable. */
  lemma DecodeStep(c: FieldCipher, s: seq<byte>, key: bv32, left': nat, done: seq<Entry>, whole: seq<Entry>,
                   e: Entry, rest: seq<byte>, key': bv32)
    requires Pending(c, s, key, left' + 1, done, whole)
    requires Decoded(e, rest, key') == DecodeEntry(c, s, key)
    ensures Pending(c, rest, key', left', done + [e], whole)
  {
    AppendAssoc(done, [e], DecodeToc(c, rest, key', left'));
  }

  /** One pass of the loop: the entry at the read position is decoded, and
      the read position and the key move past it. */
  method NextEntry(c: FieldCipher, at: seq<byte>, key: bv32,
                   ghost left: nat, ghost done: seq<Entry>, ghost whole: seq<Entry>)
    returns (e: Entry, rest: seq<byte>, key': bv32, ghost left': nat)
    requires left > 0 && Pending(c, at, key, left, done, whole)
    ensures left' == left - 1
    ensures Decoded(e, rest, key') == DecodeEntry(c, at, key)
    ensures Pending(c, rest, key', left', done + [e], whole)
  {
    left' := left - 1;
    e, rest, key' := ReadEntry(c, at, key);
    DecodeStep(c, at, key, left', done, whole, e, rest, key');
  }

  /** The loop of `azp_get_file_list`: `count` entries decoded one after
      another while the read position `toc + addr` and the key advance. The
      read position is kept as the bytes from it on. */
  method DecodeEntries(c: FieldCipher, toc: seq<byte>, count: nat) returns (entries: seq<Entry>)
    requires TocReadable(c, toc, CipherKey, count)
    ensures entries == DecodeToc(c, toc, CipherKey, count)
  {
    var at := toc;
    var key := CipherKey;
    ghost var whole := DecodeToc(c, toc, CipherKey, count);
    ghost var left := count;
    entries := [];
    AppendEmpty(entries, whole);
    var i := 0;
    while i < count
      invariant i <= count && left == count - i
      invariant Pending(c, at, key, left, entries, whole)
    {
      var e;
      e, at, key, left := NextEntry(c, at, key, left, entries, whole);
      entries := entries + [e];
      i := i + 1;
    }
    AppendNil(entries, DecodeToc(c, at, key, left));
  }

  /** `azp_get_file_list` as written: NULL when the archive is shorter than
      `file_count` in-memory entries, otherwise the decoded entries. */
  method GetFileList(header: Header, archive: seq<byte>) returns (r: Option<seq<Entry>>)
    requires !RejectedAsWritten(header, archive) ==> ArchiveReadable(header, archive)
    ensures RejectedAsWritten(header, archive) ==> r == None
    ensures !RejectedAsWritten(header, archive) ==>
      r == Some(DecodeToc(Cipher, TocBytes(archive), CipherKey, header.fileCount))
  {
    if RejectedAsWritten(header, archive) {
      return None;
    }
    var entries := DecodeEntries(Cipher, TocBytes(archive), header.fileCount);
    return Some(entries);
  }

  /** The reader with a size check against the on-disk record size. */
  method GetFileListChecked(header: Header, archive: seq<byte>) returns (r: Option<seq<Entry>>)
    requires !RejectedBySize(header, archive) ==> ArchiveReadable(header, archive)
    ensures RejectedBySize(header, archive) ==> r == None
    ensures !RejectedBySize(header, archive) ==>
      r == Some(DecodeToc(Cipher, TocBytes(archive), CipherKey, header.fileCount))
  {
    if RejectedBySize(header, archive) {
      return None;
    }
    var entries := DecodeEntries(Cipher, TocBytes(archive), header.fileCount);
    return Some(entries);
  }

  /** The on-disk size check never turns away an archive whose records can
      be read: every record takes at least 17 bytes. */
  lemma SizeCheckKeepsReadable(header: Header, archive: seq<byte>)
    requires ArchiveReadable(header, archive)
    ensures !RejectedBySize(header, archive)
  {
    ReadableSize(Cipher, TocBytes(archive), CipherKey, header.fileCount);
  }

  /** The as-written check turns away a one-file archive the writer produces
      whenever the archive is shorter than one in-memory entry (272 bytes),
      though its record reads back whole; the on-disk check lets it through. */
  lemma AsWrittenRejectsReadable(header: Header, e: Entry, payload: seq<byte>)
    requires header.fileCount == 1 && RoundTrips(e) && |e.filename| == 1
    requires |payload| < EntryStructSize - HeaderSize - EntryFixedSize - 1
    ensures var a := HeaderBytes(header) + EncodeToc(Cipher, [e], CipherKey).out + payload;
      ArchiveReadable(header, a) && DecodeToc(Cipher, TocBytes(a), CipherKey, 1) == [e] &&
      RejectedAsWritten(header, a) && !RejectedBySize(header, a)
  {
    var hb := HeaderBytes(header);
    var t := EncodeToc(Cipher, [e], CipherKey).out;
    var a := hb + t + payload;
    AppendAssoc(hb, t, payload);
    SplitFront(hb, t + payload);
    assert TocBytes(a) == t + payload;
    CipherSelfInverse();
    assert AllRoundTrip([e]);
    DecodeEncodeToc(Cipher, [e], CipherKey, CipherKey, payload);
    assert TocSize([e][1..]) == 0;
    SizeCheckKeepsReadable(header, a);
  }

  // ---------------------------------------------------------------------
  // Where an entry is extracted to (`azp_extract_file`, azp.c:316-331)
  // ---------------------------------------------------------------------

  const Backslash: byte := 0x5C
  const Slash: byte := 0x2F
  const Dot: byte := 0x2E
  /** Sizes of the `dirname` and `path` buffers. */
  const DirNameSize: nat := 32
  const PathSize: nat := 64

  /** `strchr`: the position of the first `b` in `s`. */
  function FirstIndex(s: seq<byte>, b: byte): (r: Option<nat>)
    ensures r.None? <==> b !in s
    ensures r.Some? ==> r.value < |s| && s[r.value] == b && b !in s[..r.value]
  {
    if s == [] then None
    else if s[0] == b then Some(0)
    else
      match FirstIndex(s[1..], b)
      case None => None
      case Some(k) =>
        assert s[..k + 1] == [s[0]] + s[1..][..k];
        Some(k + 1)
  }

  /** The directory to create, if any, and the path to open. */
  datatype Target = Target(dir: Option<seq<byte>>, path: seq<byte>)

  /** A name holding a backslash is split at the first one: the directory
      `prefix` is created and the file written to `"./" + prefix + "/" +
      suffix`; any other name is opened as it is. `strcpy` copies the whole
      name into the 32-byte `dirname`, so such a name must be shorter. */
  function ExtractTarget(name: seq<byte>): (t: Target)
    requires Backslash in name ==> |name| < DirNameSize
    ensures Backslash !in name ==> t == Target(None, name)
    ensures Backslash in name ==>
      t.dir.Some? && Backslash !in t.dir.value && |t.dir.value| < |name| &&
      name == t.dir.value + [Backslash] + name[|t.dir.value| + 1..] &&
      t.path == [Dot, Slash] + t.dir.value + [Slash] + name[|t.dir.value| + 1..] &&
      |t.path| + 1 <= PathSize
  {
    match FirstIndex(name, Backslash)
    case None => Target(None, name)
    case Some(k) =>
      var dir := name[..k];
      assert name == dir + [Backslash] + name[k + 1..];
      Target(Some(dir), [Dot, Slash] + dir + [Slash] + name[k + 1..])
  }

  /** An independent description of the split: the first backslash, and only
      that one, becomes a slash. */
  function ReplaceFirst(s: seq<byte>, a: byte, b: byte): (r: seq<byte>)
  {
    if s == [] then []
    else if s[0] == a then [b] + s[1..]
    else [s[0]] + ReplaceFirst(s[1..], a, b)
  }

  lemma {:induction false} ReplaceFirstAt(s: seq<byte>, a: byte, b: byte)
    requires a in s
    ensures var k := FirstIndex(s, a).value; ReplaceFirst(s, a, b) == s[..k] + [b] + s[k + 1..]
    decreases |s|
  {
    if s[0] != a {
      var k := FirstIndex(s[1..], a).value;
      ReplaceFirstAt(s[1..], a, b);
      assert s[1..][k + 1..] == s[k + 2..];
      assert s[..k + 1] == [s[0]] + s[1..][..k];
    }
  }

  /** The extraction path of a name with a backslash is `"./"` followed by
      the name with its first backslash turned into a slash. */
  lemma ExtractPathReplacesFirst(name: seq<byte>)
    requires Backslash in name && |name| < DirNameSize
    ensures ExtractTarget(name).path == [Dot, Slash] + ReplaceFirst(name, Backslash, Slash)
  {
    ReplaceFirstAt(name, Backslash, Slash);
  }

  // ---------------------------------------------------------------------
  // Extract all (`azp_extract_all`)
  // ---------------------------------------------------------------------

  /** `azp_extract_all`, with `succeeds[i]` standing for whether extracting
      entry `i` returns 0. Entries are extracted in order; the first failure
      ends the loop with false. `attempted` counts the extractions begun. */
  method ExtractAll(header: Header, succeeds: seq<bool>) returns (ok: bool, attempted: nat)
    requires |succeeds| == header.fileCount
    ensures ok <==> forall i | 0 <= i < |succeeds| :: succeeds[i]
    ensures ok ==> attempted == |succeeds|
    ensures !ok ==> (1 <= attempted <= |succeeds| && !succeeds[attempted - 1] &&
      forall i | 0 <= i < attempted - 1 :: succeeds[i])
  {
    var i := 0;
    while i < header.fileCount
      invariant 0 <= i <= header.fileCount
      invariant forall j | 0 <= j < i :: succeeds[j]
    {
      if !succeeds[i] {
        return false, i + 1;
      }
      i := i + 1;
    }
    return true, i;
  }
}
