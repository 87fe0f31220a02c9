/** The writer: `azp_make_file_list` builds the header and the entry list
    from the paths given on the command line, and `azp_compress_files`
    writes the header, the ciphered TOC and the compressed payloads. */
module Pack {
  import opened Bytes
  import opened Format
  import opened Seqs
  import opened TocCipher
  import opened Toc

  // ---------------------------------------------------------------------
  // The file list (`azp_make_file_list`, azp.c:92-142)
  // ---------------------------------------------------------------------

  /** What `stat` reports about a path: whether it is a regular file, and
      its size in bytes. */
  datatype FileStat = FileStat(regular: bool, size: nat)

  /** Every path in the run could be examined. */
  predicate AllStat(stats: seq<Option<FileStat>>) {
    forall i | 0 <= i < |stats| :: stats[i].Some?
  }

  /** Paths in the run that `stat` reports as something other than a
      regular file. */
  function Folders(stats: seq<Option<FileStat>>): (n: nat)
    ensures n <= |stats|
  {
    if stats == [] then 0
    else (if stats[0].Some? && !stats[0].value.regular then 1 else 0) + Folders(stats[1..])
  }

  /** A path as a C string: no NUL, and short enough for the entry's
      `NAME_MAX` filename buffer with its terminator. */
  predicate CPath(p: seq<byte>) {
    0 !in p && |p| < NameMax
  }

  /** The entry for one path: its `strlen` as the length, the path as the
      name, offset and compressed size still zero from `calloc`, and the
      size `stat` reported (in a `uint32_t` field) as the uncompressed size. */
  function ListEntry(p: seq<byte>, st: FileStat): (e: Entry)
    requires CPath(p)
    ensures e.filenameLength == |e.filename| && e.filename == p
    ensures e.offset == 0 && e.compressedSize == 0 && e.uncompressedSize == Wrap32(st.size)
  {
    Entry(|p|, p, 0, 0, Wrap32(st.size))
  }

  predicate AllCPaths(paths: seq<seq<byte>>) {
    forall i | 0 <= i < |paths| :: CPath(paths[i])
  }

  /** The entries of a run of paths, one per path and in the same order. */
  function ListEntries(paths: seq<seq<byte>>, stats: seq<Option<FileStat>>): (es: seq<Entry>)
    requires |stats| == |paths| && AllStat(stats) && AllCPaths(paths)
    ensures |es| == |paths|
    ensures forall i | 0 <= i < |es| :: es[i] == ListEntry(paths[i], stats[i].value)
  {
    seq(|paths|, i requires 0 <= i < |paths| => ListEntry(paths[i], stats[i].value))
  }

  /** Bytes of all names in a run of entries. */
  function NameBytes(es: seq<Entry>): nat {
    if es == [] then 0 else es[0].filenameLength + NameBytes(es[1..])
  }

  /** What `azp_make_file_list` leaves in the header and returns, given the
      paths and what `stat` reports about each. */
  method MakeFileList(header: Header, paths: seq<seq<byte>>, stats: seq<Option<FileStat>>)
    returns (header': Header, list: Option<seq<Entry>>)
    requires |stats| == |paths|
    requires var n := Wrap32(|paths|);
      AllStat(stats[..n]) ==> AllCPaths(paths[..n - Folders(stats[..n])])
    ensures var n := Wrap32(|paths|);
      !AllStat(stats[..n]) ==>
        list == None && header' == header.(magic := Magic, version := Version, fileCount := n)
    ensures var n := Wrap32(|paths|);
      AllStat(stats[..n]) ==>
        var count := n - Folders(stats[..n]);
        var es := ListEntries(paths[..count], stats[..count]);
        list == Some(es) &&
        header' == Header(Magic, Wrap32(HeaderSize + TocSize(es)), Version, count)
  {
    var n := Wrap32(|paths|);
    header' := header.(magic := Magic, version := Version, fileCount := n);
    var folders := CountFolders(stats, n);
    if folders.None? {
      return header', None;
    }
    var count: u32 := n - folders.value;
    header' := header'.(fileCount := count);
    AllStatPrefix(stats[..n], count);
    assert stats[..n][..count] == stats[..count];
    assert AllCPaths(paths[..count]);
    var entries, offset := ListPaths(paths, stats, count);
    TocSizeNames(entries);
    WrapAdd(EntryFixedSize * count + NameBytes(entries), HeaderSize);
    header' := header'.(dataOffset := Wrap32(offset + HeaderSize));
    list := Some(entries);
  }

  /** The first loop of `azp_make_file_list`: every one of the first `n`
      paths is examined, and the ones that are not regular files counted;
      the first failing `stat` ends it. */
  method CountFolders(stats: seq<Option<FileStat>>, n: nat) returns (folders: Option<nat>)
    requires n <= |stats|
    ensures folders.None? <==> !AllStat(stats[..n])
    ensures folders.Some? ==> folders.value == Folders(stats[..n])
  {
    var count: nat := 0;
    var i: nat := 0;
    while i < n
      invariant i <= n
      invariant AllStat(stats[..i]) && count == Folders(stats[..i])
    {
      var st := stats[i];
      if st.None? {
        assert !stats[..n][i].Some?;
        return None;
      }
      StatSnoc(stats, i);
      if !st.value.regular {
        count := count + 1;
      }
      i := i + 1;
    }
    assert stats[..i] == stats[..n];
    return Some(count);
  }

  /** The second loop of `azp_make_file_list`: an entry per path for the
      first `count` paths, and the TOC size (`16 * count` plus every name's
      length) accumulated in a `uint32_t`. */
  method ListPaths(paths: seq<seq<byte>>, stats: seq<Option<FileStat>>, count: nat)
    returns (entries: seq<Entry>, offset: u32)
    requires count <= |paths| == |stats| && AllStat(stats[..count]) && AllCPaths(paths[..count])
    ensures entries == ListEntries(paths[..count], stats[..count])
    ensures offset == Wrap32(EntryFixedSize * count + NameBytes(entries))
  {
    offset := Wrap32(EntryFixedSize * count);
    entries := [];
    var i: nat := 0;
    while i < count
      invariant i <= count && AllCPaths(paths[..i])
      invariant entries == ListEntries(paths[..i], stats[..i])
      invariant offset == Wrap32(EntryFixedSize * count + NameBytes(entries))
    {
      StatPrefixOf(stats, i, count);
      CPathsPrefixOf(paths, i, count);
      var e := ListEntry(paths[i], stats[i].value);
      WrapAdd(EntryFixedSize * count + NameBytes(entries), e.filenameLength);
      NameBytesSnoc(entries, e);
      offset := Wrap32(offset + e.filenameLength);
      ListEntriesSnoc(paths, stats, i, entries);
      entries := entries + [e];
      i := i + 1;
    }
  }

  lemma AllStatPrefix(stats: seq<Option<FileStat>>, k: nat)
    requires k <= |stats| && AllStat(stats)
    ensures AllStat(stats[..k])
  {
  }

  lemma StatPrefixOf(stats: seq<Option<FileStat>>, i: nat, count: nat)
    requires i < count <= |stats| && AllStat(stats[..count])
    ensures stats[i].Some? && AllStat(stats[..i + 1])
  {
    assert stats[..count][i] == stats[i];
  }

  lemma CPathsPrefixOf(paths: seq<seq<byte>>, i: nat, count: nat)
    requires i < count <= |paths| && AllCPaths(paths[..count])
    ensures CPath(paths[i]) && AllCPaths(paths[..i + 1])
  {
    assert paths[..count][i] == paths[i];
    assert forall j | 0 <= j < i + 1 :: paths[..i + 1][j] == paths[..count][j];
  }

  lemma StatSnoc(stats: seq<Option<FileStat>>, i: nat)
    requires i < |stats| && stats[i].Some?
    ensures AllStat(stats[..i]) ==> AllStat(stats[..i + 1])
    ensures Folders(stats[..i + 1]) ==
      Folders(stats[..i]) + (if stats[i].value.regular then 0 else 1)
  {
    assert stats[..i + 1] == stats[..i] + [stats[i]];
    FoldersAppend(stats[..i], [stats[i]]);
  }

  lemma {:induction false} FoldersAppend(a: seq<Option<FileStat>>, b: seq<Option<FileStat>>)
    ensures Folders(a + b) == Folders(a) + Folders(b)
    decreases |a|
  {
    if a == [] {
      AppendEmpty(a, b);
    } else {
      ConsAppend(a, b);
      FoldersAppend(a[1..], b);
    }
  }

  lemma {:induction false} NameBytesSnoc(es: seq<Entry>, e: Entry)
    ensures NameBytes(es + [e]) == NameBytes(es) + e.filenameLength
    decreases |es|
  {
    if es == [] {
      AppendEmpty(es, [e]);
      assert NameBytes([e][1..]) == 0;
    } else {
      ConsAppend(es, [e]);
      NameBytesSnoc(es[1..], e);
    }
  }

  lemma ListEntriesSnoc(paths: seq<seq<byte>>, stats: seq<Option<FileStat>>, i: nat, es: seq<Entry>)
    requires i < |paths| == |stats| && AllStat(stats[..i + 1]) && AllCPaths(paths[..i + 1])
    requires AllCPaths(paths[..i]) && es == ListEntries(paths[..i], stats[..i])
    ensures AllStat(stats[..i])
    ensures es + [ListEntry(paths[i], stats[i].value)] == ListEntries(paths[..i + 1], stats[..i + 1])
  {
  }

  /** A record is four words and its name. */
  lemma {:induction false} TocSizeNames(es: seq<Entry>)
    ensures TocSize(es) == EntryFixedSize * |es| + NameBytes(es)
    decreases |es|
  {
    if es != [] {
      TocSizeNames(es[1..]);
    }
  }

  /** The entries of the file list survive the TOC round trip: each length
      field is its name's length and no name holds a NUL. */
  lemma ListRoundTrips(paths: seq<seq<byte>>, stats: seq<Option<FileStat>>)
    requires |stats| == |paths| && AllStat(stats) && AllCPaths(paths)
    requires forall i | 0 <= i < |paths| :: paths[i] != []
    ensures AllRoundTrip(ListEntries(paths, stats))
  {
  }

  /** The file list keeps the first `count` paths, not the regular files:
      with a folder in front of a file, the folder is listed (and later
      handed to `azp_compress_file`) and the file is dropped. */
  lemma FolderFirstDropsFile()
    ensures var paths: seq<seq<byte>> := [[0x64], [0x61]];
      var stats := [Some(FileStat(false, 0)), Some(FileStat(true, 5))];
      var count := |paths| - Folders(stats);
      var list := ListEntries(paths[..count], stats[..count]);
      count == 1 && list == [ListEntry([0x64], FileStat(false, 0))] &&
      stats[1].value.regular && forall k | 0 <= k < |list| :: list[k].filename != paths[1]
  {
    var paths: seq<seq<byte>> := [[0x64], [0x61]];
    var stats := [Some(FileStat(false, 0)), Some(FileStat(true, 5))];
    assert Folders(stats[1..]) == 0;
    assert paths[..1] == [[0x64]];
  }

  /** `k` added to every position. */
  function Shifted(r: seq<nat>, k: nat): (t: seq<nat>)
    ensures |t| == |r| && forall j | 0 <= j < |r| :: t[j] == r[j] + k
  {
    seq(|r|, j requires 0 <= j < |r| => r[j] + k)
  }

  /** The positions of the regular files among the paths, in path order.
      Every position listed is a regular file; `RegularIndicesExact` adds
      that the positions increase and that every regular file is listed. */
  function RegularIndices(stats: seq<Option<FileStat>>): (r: seq<nat>)
    requires AllStat(stats)
    ensures |r| == |stats| - Folders(stats)
    ensures forall k | 0 <= k < |r| :: r[k] < |stats| && stats[r[k]].value.regular
    decreases |stats|
  {
    if stats == [] then []
    else
      assert AllStat(stats[1..]) by { TailIndex(stats); }
      var t := RegularIndices(stats[1..]);
      var rest := Shifted(t, 1);
      assert forall k | 0 <= k < |rest| :: stats[rest[k]] == stats[1..][t[k]];
      if stats[0].value.regular then [0] + rest else rest
  }

  predicate Increasing(r: seq<nat>) {
    forall k, l | 0 <= k < l < |r| :: r[k] < r[l]
  }

  /** Every regular file among the paths has its position in `r`. */
  predicate ListsRegular(stats: seq<Option<FileStat>>, r: seq<nat>) {
    forall i | 0 <= i < |stats| && stats[i].Some? && stats[i].value.regular :: i in r
  }

  lemma IncreasingShifted(t: seq<nat>)
    requires Increasing(t)
    ensures Increasing(Shifted(t, 1)) && Increasing([0] + Shifted(t, 1))
  {
    var rest := Shifted(t, 1);
    var r := [0] + rest;
    forall k, l | 0 <= k < l < |r| ensures r[k] < r[l] {
      assert r[l] == rest[l - 1];
      if k > 0 {
        assert r[k] == rest[k - 1];
      }
    }
  }

  lemma ListsRegularShifted(stats: seq<Option<FileStat>>, t: seq<nat>)
    requires stats != [] && ListsRegular(stats[1..], t)
    ensures forall i | 1 <= i < |stats| && stats[i].Some? && stats[i].value.regular :: i in Shifted(t, 1)
  {
    var rest := Shifted(t, 1);
    forall i | 1 <= i < |stats| && stats[i].Some? && stats[i].value.regular ensures i in rest {
      assert stats[1..][i - 1] == stats[i];
      var k :| 0 <= k < |t| && t[k] == i - 1;
      assert rest[k] == i;
    }
  }

  /** The positions increase, and every regular file is among them. */
  lemma {:induction false} RegularIndicesExact(stats: seq<Option<FileStat>>)
    requires AllStat(stats)
    ensures Increasing(RegularIndices(stats)) && ListsRegular(stats, RegularIndices(stats))
    decreases |stats|
  {
    if stats != [] {
      TailIndex(stats);
      var t := RegularIndices(stats[1..]);
      RegularIndicesExact(stats[1..]);
      IncreasingShifted(t);
      ListsRegularShifted(stats, t);
      var rest := Shifted(t, 1);
      var r := RegularIndices(stats);
      if stats[0].value.regular {
        assert r == [0] + rest;
        assert forall i | 1 <= i < |stats| && stats[i].Some? && stats[i].value.regular :: i in r;
      } else {
        assert r == rest;
      }
    }
  }

  /** The file list as evidently intended: an entry for each regular file,
      in path order; it has the `file_count - folders` entries the header
      announces. */
  function RegularEntries(paths: seq<seq<byte>>, stats: seq<Option<FileStat>>): (es: seq<Entry>)
    requires |stats| == |paths| && AllStat(stats)
    requires forall i | 0 <= i < |paths| && stats[i].value.regular :: CPath(paths[i])
    ensures |es| == |paths| - Folders(stats)
    ensures forall k | 0 <= k < |es| :: FromRegular(paths, stats, es[k])
  {
    var idx := RegularIndices(stats);
    var es := seq(|idx|, k requires 0 <= k < |idx| => ListEntry(paths[idx[k]], stats[idx[k]].value));
    forall k | 0 <= k < |es| ensures FromRegular(paths, stats, es[k]) {
      var i := idx[k];
      assert stats[i].value.regular && es[k] == ListEntry(paths[i], stats[i].value);
    }
    es
  }

  /** `e` is the entry of one of the regular files. */
  predicate FromRegular(paths: seq<seq<byte>>, stats: seq<Option<FileStat>>, e: Entry)
    requires |stats| == |paths| && AllStat(stats)
    requires forall i | 0 <= i < |paths| && stats[i].value.regular :: CPath(paths[i])
  {
    exists i | 0 <= i < |paths| :: stats[i].value.regular && e == ListEntry(paths[i], stats[i].value)
  }

  /** With no folder among the paths every position is a regular file. */
  lemma {:induction false} RegularIndicesAll(stats: seq<Option<FileStat>>)
    requires AllStat(stats) && Folders(stats) == 0
    ensures RegularIndices(stats) == seq(|stats|, k => k)
    decreases |stats|
  {
    if stats != [] {
      TailIndex(stats);
      RegularIndicesAll(stats[1..]);
      var r := RegularIndices(stats);
      assert r == [0] + Shifted(seq(|stats| - 1, k => k), 1);
    }
  }

  /** Without folders the list as written and the intended list agree. */
  lemma NoFoldersAgree(paths: seq<seq<byte>>, stats: seq<Option<FileStat>>)
    requires |stats| == |paths| && AllStat(stats) && AllCPaths(paths) && Folders(stats) == 0
    ensures RegularEntries(paths, stats) == ListEntries(paths, stats)
  {
    RegularIndicesAll(stats);
  }

  // ---------------------------------------------------------------------
  // The archive (`azp_compress_files`, azp.c:144-260)
  // ---------------------------------------------------------------------

  /** `".tmp"`, which `azp_compress_file` appends to the name it is given. */
  const TmpSuffix: seq<byte> := [0x2E, 0x74, 0x6D, 0x70]

  /** What `azp_compress_file` did for one entry (deflate itself is not
      modelled): the source could not be opened and the name is untouched;
      `".tmp"` was appended to the name and then compression failed; or the
      `".tmp"` file was written and `stat` gave its size. */
  datatype Compression = SourceMissing | CompressFailed | Compressed(size: u32)

  /** An entry as a failed compression leaves it. */
  function Touched(e: Entry, c: Compression): Entry {
    if c.CompressFailed? then e.(filename := e.filename + TmpSuffix) else e
  }

  /** An entry after its pass of the TOC loop: renamed to its `".tmp"` file,
      its compressed size filled in and its payload placed at `offset`. */
  function Place(e: Entry, size: u32, offset: u32): Entry {
    e.(filename := e.filename + TmpSuffix, offset := offset, compressedSize := size)
  }

  predicate AllCompressed(cs: seq<Compression>) {
    forall i | 0 <= i < |cs| :: cs[i].Compressed?
  }

  /** The entry array as the TOC loop leaves it: entries placed one after
      another from `offset`, each next one at the previous offset plus the
      previous compressed size (a `uint32_t` sum); at the first failed
      compression, that entry as the failure left it and the rest untouched. */
  function Settle(es: seq<Entry>, cs: seq<Compression>, offset: u32): (r: seq<Entry>)
    requires |es| == |cs|
    ensures |r| == |es|
    decreases |es|
  {
    if es == [] then []
    else if cs[0].Compressed? then
      [Place(es[0], cs[0].size, offset)] + Settle(es[1..], cs[1..], Wrap32(offset + cs[0].size))
    else [Touched(es[0], cs[0])] + es[1..]
  }

  /** The TOC records the loop writes from `key`, one per entry up to the
      first failed compression, and the key they leave. */
  function TocOut(c: FieldCipher, es: seq<Entry>, cs: seq<Compression>, offset: u32, key: bv32): Keyed
    requires |es| == |cs| && AllWritable(es)
    decreases |es|
  {
    if es == [] || !cs[0].Compressed? then Keyed([], key)
    else
      assert AllWritable(es[1..]) by { TailIndex(es); }
      var r := EncodeEntry(c, Place(es[0], cs[0].size, offset), key);
      var t := TocOut(c, es[1..], cs[1..], Wrap32(offset + cs[0].size), r.key);
      Keyed(r.out + t.out, t.key)
  }

  /** Every `".tmp"` file could be opened and holds at least its entry's
      compressed size. */
  predicate PayloadsReadable(es: seq<Entry>, files: seq<Option<seq<byte>>>)
    requires |es| == |files|
  {
    forall i | 0 <= i < |files| :: files[i].Some? && es[i].compressedSize <= |files[i].value|
  }

  /** The payloads one after another, each the first `compressed_size`
      bytes of its `".tmp"` file. */
  function PayloadBytes(es: seq<Entry>, files: seq<Option<seq<byte>>>): (b: seq<byte>)
    requires |es| == |files| && PayloadsReadable(es, files)
    decreases |es|
  {
    if es == [] then []
    else
      var k := |es| - 1;
      assert PayloadsReadable(es[..k], files[..k]);
      PayloadBytes(es[..k], files[..k]) + files[k].value[..es[k].compressedSize]
  }

  /** What the payload loop appends, file by file: each whole payload while
      its `".tmp"` file opens and holds it; at the first file that does not
      open nothing more, and at the first one that is too short the whole
      chunks it still yields. */
  function PayloadOut(es: seq<Entry>, files: seq<Option<seq<byte>>>): seq<byte>
    requires |es| == |files|
    decreases |es|
  {
    if es == [] || files[0].None? then []
    else if es[0].compressedSize <= |files[0].value| then
      files[0].value[..es[0].compressedSize] + PayloadOut(es[1..], files[1..])
    else files[0].value[..ChunkSize * (|files[0].value| / ChunkSize)]
  }

  /** One cipher call and its `fwrite`: a zero-length field yields no buffer
      and writes nothing. */
  method WriteField(field: seq<byte>, key: bv32) returns (bytes: seq<byte>, key': bv32)
    ensures Keyed(bytes, key') == Cipher(field, key)
  {
    var out;
    out, key' := CipherBuffer(field, key);
    bytes := if out.Some? then out.value else [];
  }

  /** Five fields ciphered one after another, as the writer's five calls
      produce them. */
  lemma ThreadFive(c: FieldCipher, fs: seq<seq<byte>>, key: bv32)
    requires |fs| == 5
    ensures var k0 := c(fs[0], key); var k1 := c(fs[1], k0.key); var k2 := c(fs[2], k1.key);
      var k3 := c(fs[3], k2.key); var k4 := c(fs[4], k3.key);
      Thread(c, fs, key) == Keyed((((k0.out + k1.out) + k2.out) + k3.out) + k4.out, k4.key)
  {
    var k0 := c(fs[0], key); var k1 := c(fs[1], k0.key); var k2 := c(fs[2], k1.key);
    var k3 := c(fs[3], k2.key); var k4 := c(fs[4], k3.key);
    var f1 := fs[1..]; var f2 := f1[1..]; var f3 := f2[1..]; var f4 := f3[1..];
    assert Thread(c, f4[1..], k4.key) == Keyed([], k4.key);
    AppendNil(k4.out, []);
    assert Thread(c, f4, k3.key) == Keyed(k4.out, k4.key);
    assert Thread(c, f3, k2.key) == Keyed(k3.out + k4.out, k4.key);
    assert Thread(c, f2, k1.key) == Keyed(k2.out + (k3.out + k4.out), k4.key);
    assert Thread(c, f1, k0.key) == Keyed(k1.out + (k2.out + (k3.out + k4.out)), k4.key);
    AppendAssoc(k2.out, k3.out, k4.out);
    AppendAssoc(k1.out, k2.out + k3.out, k4.out);
    AppendAssoc(k1.out, k2.out, k3.out);
    AppendAssoc(k0.out, ((k1.out + k2.out) + k3.out), k4.out);
    AppendAssoc(k0.out, (k1.out + k2.out), k3.out);
    AppendAssoc(k0.out, k1.out, k2.out);
  }

  /** One pass of the TOC loop once the entry's file was compressed to
      `size` bytes (which renamed the entry to its `".tmp"` file): the length
      and the name are ciphered, the offset is recorded, then the offset, the
      compressed size and the uncompressed size are ciphered, and the running
      offset moves past the payload. */
  method WriteRecord(e: Entry, size: u32, offset: u32, key: bv32)
    returns (p: Entry, bytes: seq<byte>, key': bv32, offset': u32)
    requires Writable(e)
    ensures p == Place(e, size, offset) && Writable(p)
    ensures Keyed(bytes, key') == EncodeEntry(Cipher, p, key)
    ensures offset' == Wrap32(offset + size)
  {
    p := e.(filename := e.filename + TmpSuffix, compressedSize := size);
    var b0, k0 := WriteField(LE32(p.filenameLength), key);
    var b1, k1 := WriteField(p.filename[..p.filenameLength], k0);
    p := p.(offset := offset);
    var b2, k2 := WriteField(LE32(p.offset), k1);
    var b3, k3 := WriteField(LE32(p.compressedSize), k2);
    offset' := Wrap32(offset + size);
    var b4, k4 := WriteField(LE32(p.uncompressedSize), k3);
    bytes := b0 + b1 + b2 + b3 + b4;
    key' := k4;
    ThreadFive(Cipher, Fields(p), key);
  }

  /** `fread` into the block buffer: as many of the `n` bytes from `pos` on
      as the file still holds. */
  method ReadChunk(block: array<byte>, data: seq<byte>, pos: nat, n: nat) returns (got: nat)
    requires pos <= |data| && n <= block.Length
    modifies block
    ensures got == if |data| - pos < n then |data| - pos else n
    ensures block[..got] == data[pos..pos + got]
    ensures forall m | got <= m < block.Length :: block[m] == old(block[m])
  {
    got := if |data| - pos < n then |data| - pos else n;
    for k := 0 to got
      invariant block[..k] == data[pos..pos + k]
      invariant forall m | k <= m < block.Length :: block[m] == old(block[m])
    {
      block[k] := data[pos + k];
      assert block[..k + 1] == block[..k] + [block[k]];
    }
  }

  /** The chunk loop of `azp_compress_files`: the payload is read from its
      `".tmp"` file and appended in chunks of at most 16384 bytes until
      `size` bytes are written; a short read ends it. */
  method CopyPayload(archive: seq<byte>, data: seq<byte>, size: u32) returns (ok: bool, archive': seq<byte>)
    ensures ok <==> size <= |data|
    ensures ok ==> archive' == archive + data[..size]
    ensures !ok ==> archive' == archive + data[..ChunkSize * (|data| / ChunkSize)]
  {
    var block := new byte[ChunkSize + 1];
    var chunksize: nat := ChunkSize;
    var written: nat := 0;
    archive' := archive;
    while written != size
      invariant written <= size && written <= |data|
      invariant (chunksize == ChunkSize && written % ChunkSize == 0) || written == size
      invariant archive' == archive + data[..written]
      decreases size - written
    {
      if chunksize > size - written {
        chunksize := size - written;
      }
      var got := ReadChunk(block, data, written, chunksize);
      if got != chunksize {
        return false, archive';
      }
      AppendAssoc(archive, data[..written], block[..chunksize]);
      PrefixExtend(data, written, written + chunksize);
      archive' := archive' + block[..chunksize];
      written := written + chunksize;
    }
    return true, archive';
  }

  /** The state of the TOC loop: `done` are the entries already placed and
      `written` the file so far; the entries `todo` with the outcomes `rest`
      still to come settle into the rest of `whole` and write the rest of
      `image`. */
  ghost predicate TocLoop(whole: seq<Entry>, image: seq<byte>, cs: seq<Compression>,
                          done: seq<Entry>, written: seq<byte>, todo: seq<Entry>,
                          cdone: seq<Compression>, rest: seq<Compression>, offset: u32, key: bv32)
  {
    |todo| == |rest| && AllWritable(todo) && cs == cdone + rest && AllCompressed(cdone) &&
    whole == done + Settle(todo, rest, offset) &&
    image == written + TocOut(Cipher, todo, rest, offset, key).out
  }

  /** A successful compression: the record goes out and the entry is placed. */
  lemma TocPass(whole: seq<Entry>, image: seq<byte>, cs: seq<Compression>,
                done: seq<Entry>, written: seq<byte>, todo: seq<Entry>,
                cdone: seq<Compression>, rest: seq<Compression>, offset: u32, key: bv32,
                p: Entry, bytes: seq<byte>, key': bv32, offset': u32)
    requires TocLoop(whole, image, cs, done, written, todo, cdone, rest, offset, key)
    requires todo != [] && rest[0].Compressed?
    requires p == Place(todo[0], rest[0].size, offset) && offset' == Wrap32(offset + rest[0].size)
    requires Keyed(bytes, key') == EncodeEntry(Cipher, p, key)
    ensures TocLoop(whole, image, cs, done + [p], written + bytes, todo[1..],
                    cdone + [rest[0]], rest[1..], offset', key')
  {
    TailIndex(todo);
    SettleStep(todo, rest, offset, p, offset');
    TocOutStep(Cipher, todo, rest, offset, key, p, bytes, key', offset');
    AppendAssoc(done, [p], Settle(todo[1..], rest[1..], offset'));
    AppendAssoc(written, bytes, TocOut(Cipher, todo[1..], rest[1..], offset', key').out);
    OutcomeStep(cs, cdone, rest);
  }

  lemma SettleStep(todo: seq<Entry>, rest: seq<Compression>, offset: u32, p: Entry, offset': u32)
    requires |todo| == |rest| > 0 && rest[0].Compressed?
    requires p == Place(todo[0], rest[0].size, offset) && offset' == Wrap32(offset + rest[0].size)
    ensures Settle(todo, rest, offset) == [p] + Settle(todo[1..], rest[1..], offset')
  {
  }

  lemma TocOutStep(c: FieldCipher, todo: seq<Entry>, rest: seq<Compression>, offset: u32, key: bv32,
                   p: Entry, bytes: seq<byte>, key': bv32, offset': u32)
    requires |todo| == |rest| > 0 && AllWritable(todo) && AllWritable(todo[1..]) && rest[0].Compressed?
    requires p == Place(todo[0], rest[0].size, offset) && offset' == Wrap32(offset + rest[0].size)
    requires Keyed(bytes, key') == EncodeEntry(c, p, key)
    ensures TocOut(c, todo, rest, offset, key).out == bytes + TocOut(c, todo[1..], rest[1..], offset', key').out
  {
  }

  lemma OutcomeStep(cs: seq<Compression>, cdone: seq<Compression>, rest: seq<Compression>)
    requires cs == cdone + rest && AllCompressed(cdone) && rest != [] && rest[0].Compressed?
    ensures cs == (cdone + [rest[0]]) + rest[1..] && AllCompressed(cdone + [rest[0]])
  {
    AppendAssoc(cdone, [rest[0]], rest[1..]);
    HeadTail(rest);
    SnocIndex(cdone, rest[0]);
  }

  /** Writing the next entry into the array: the placed prefix grows by it. */
  lemma PlaceAt(done: seq<Entry>, todo: seq<Entry>, p: Entry)
    requires todo != []
    ensures (done + todo)[|done| := p] == (done + [p]) + todo[1..]
  {
  }

  /** A failed compression: the loop ends with the entry as the failure left
      it and no record for it. */
  lemma TocStop(whole: seq<Entry>, image: seq<byte>, cs: seq<Compression>,
                done: seq<Entry>, written: seq<byte>, todo: seq<Entry>,
                cdone: seq<Compression>, rest: seq<Compression>, offset: u32, key: bv32)
    requires TocLoop(whole, image, cs, done, written, todo, cdone, rest, offset, key)
    requires todo != [] && !rest[0].Compressed?
    ensures whole == (done + todo)[|done| := Touched(todo[0], rest[0])]
    ensures image == written && !AllCompressed(cs)
    ensures whole == done + todo || rest[0].CompressFailed?
  {
    AppendNil(written, []);
    HeadTail(todo);
    AppendAssoc(done, [todo[0]], todo[1..]);
    AppendAssoc(done, [Touched(todo[0], rest[0])], todo[1..]);
    assert cs[|cdone|] == rest[0];
  }

  /** The state of the payload loop: the entries `edone` with the files
      `fdone` are appended and readable, the rest of `full` comes from the
      entries `todo` with the files `ftodo`. */
  ghost predicate PayLoop(es: seq<Entry>, files: seq<Option<seq<byte>>>, full: seq<byte>, archive: seq<byte>,
                          edone: seq<Entry>, fdone: seq<Option<seq<byte>>>,
                          todo: seq<Entry>, ftodo: seq<Option<seq<byte>>>)
  {
    es == edone + todo && files == fdone + ftodo && |edone| == |fdone| && |todo| == |ftodo| &&
    PayloadsReadable(edone, fdone) && full == archive + PayloadOut(todo, ftodo)
  }

  /** A payload appended whole: the loop moves on to the next file. */
  lemma PayStep(es: seq<Entry>, files: seq<Option<seq<byte>>>, full: seq<byte>, archive: seq<byte>,
                edone: seq<Entry>, fdone: seq<Option<seq<byte>>>,
                todo: seq<Entry>, ftodo: seq<Option<seq<byte>>>, archive': seq<byte>)
    requires PayLoop(es, files, full, archive, edone, fdone, todo, ftodo)
    requires todo != [] && ftodo[0].Some? && todo[0].compressedSize <= |ftodo[0].value|
    requires archive' == archive + ftodo[0].value[..todo[0].compressedSize]
    ensures PayLoop(es, files, full, archive', edone + [todo[0]], fdone + [ftodo[0]], todo[1..], ftodo[1..])
  {
    HeadTail(todo);
    HeadTail(ftodo);
    AppendAssoc(edone, [todo[0]], todo[1..]);
    AppendAssoc(fdone, [ftodo[0]], ftodo[1..]);
    AppendAssoc(archive, ftodo[0].value[..todo[0].compressedSize], PayloadOut(todo[1..], ftodo[1..]));
    SnocIndex(edone, todo[0]);
    SnocIndex(fdone, ftodo[0]);
  }

  /** A payload file that does not open or is too short: the loop ends with
      what it appended, and the files are not all readable. */
  lemma PayStop(es: seq<Entry>, files: seq<Option<seq<byte>>>, full: seq<byte>, archive: seq<byte>,
                edone: seq<Entry>, fdone: seq<Option<seq<byte>>>,
                todo: seq<Entry>, ftodo: seq<Option<seq<byte>>>, archive': seq<byte>)
    requires PayLoop(es, files, full, archive, edone, fdone, todo, ftodo) && todo != []
    requires ftodo[0].None? ==> archive' == archive
    requires ftodo[0].Some? ==> (todo[0].compressedSize > |ftodo[0].value| &&
                                 archive' == archive + ftodo[0].value[..ChunkSize * (|ftodo[0].value| / ChunkSize)])
    ensures full == archive' && |es| == |files| && !PayloadsReadable(es, files)
  {
    AppendNil(archive, []);
    assert es[|edone|] == todo[0] && files[|edone|] == ftodo[0];
  }

  /** One pass of the payload loop: the entry's `".tmp"` file is opened and
      its payload copied; `stop` when the file does not open or runs short. */
  method PayloadNext(root: array<Entry>, j: nat, files: seq<Option<seq<byte>>>, archive: seq<byte>,
                     ghost full: seq<byte>, ghost edone: seq<Entry>, ghost fdone: seq<Option<seq<byte>>>,
                     ghost todo: seq<Entry>, ghost ftodo: seq<Option<seq<byte>>>)
    returns (stop: bool, j': nat, archive': seq<byte>,
             ghost edone': seq<Entry>, ghost fdone': seq<Option<seq<byte>>>,
             ghost todo': seq<Entry>, ghost ftodo': seq<Option<seq<byte>>>)
    requires j == |edone| && todo != [] && PayLoop(root[..], files, full, archive, edone, fdone, todo, ftodo)
    ensures stop ==> full == archive' && |root[..]| == |files| && !PayloadsReadable(root[..], files)
    ensures !stop ==> (j' == j + 1 && j' == |edone'| && todo' == todo[1..] &&
                       PayLoop(root[..], files, full, archive', edone', fdone', todo', ftodo'))
  {
    var e := root[j];
    assert e == todo[0] && files[j] == ftodo[0];
    edone', fdone', todo', ftodo' := edone, fdone, todo, ftodo;
    match files[j]
    case None =>
      PayStop(root[..], files, full, archive, edone, fdone, todo, ftodo, archive);
      return true, j, archive, edone', fdone', todo', ftodo';
    case Some(data) =>
      var ok;
      ok, archive' := CopyPayload(archive, data, e.compressedSize);
      if !ok {
        PayStop(root[..], files, full, archive, edone, fdone, todo, ftodo, archive');
        return true, j, archive', edone', fdone', todo', ftodo';
      }
      PayStep(root[..], files, full, archive, edone, fdone, todo, ftodo, archive');
      stop, j' := false, j + 1;
      edone', fdone', todo', ftodo' := edone + [e], fdone + [files[j]], todo[1..], ftodo[1..];
  }

  /** The payload loop of `azp_compress_files`: the `".tmp"` file of each
      entry, `files` in entry order (`None` where it does not open), is
      appended in turn; the first one that does not open or runs short ends
      the loop. */
  method AppendPayloads(root: array<Entry>, files: seq<Option<seq<byte>>>, archive: seq<byte>)
    returns (ok: bool, archive': seq<byte>)
    requires root.Length == |files|
    ensures ok <==> PayloadsReadable(root[..], files)
    ensures archive' == archive + PayloadOut(root[..], files)
  {
    ghost var full := archive + PayloadOut(root[..], files);
    ghost var edone: seq<Entry> := [];
    ghost var fdone: seq<Option<seq<byte>>> := [];
    ghost var todo := root[..];
    ghost var ftodo := files;
    AppendEmpty(edone, todo);
    AppendEmpty(fdone, ftodo);
    archive' := archive;
    var j: nat := 0;
    while j < root.Length
      invariant j == |edone| && j + |todo| == root.Length
      invariant PayLoop(root[..], files, full, archive', edone, fdone, todo, ftodo)
      decreases root.Length - j
    {
      var stop;
      stop, j, archive', edone, fdone, todo, ftodo :=
        PayloadNext(root, j, files, archive', full, edone, fdone, todo, ftodo);
      if stop {
        return false, archive';
      }
    }
    AppendNil(edone, todo);
    AppendNil(fdone, ftodo);
    AppendNil(archive', []);
    ok := true;
  }

  /** The pass of the TOC loop for an entry whose file was compressed to
      `size` bytes: its record is written and it is placed in the array. */
  method PlaceNext(root: array<Entry>, i: nat, size: u32, archive: seq<byte>, offset: u32, key: bv32,
                   ghost whole: seq<Entry>, ghost image: seq<byte>, ghost cs: seq<Compression>,
                   ghost done: seq<Entry>, ghost todo: seq<Entry>,
                   ghost cdone: seq<Compression>, ghost rest: seq<Compression>)
    returns (i': nat, archive': seq<byte>, offset': u32, key': bv32,
             ghost done': seq<Entry>, ghost todo': seq<Entry>,
             ghost cdone': seq<Compression>, ghost rest': seq<Compression>)
    requires i == |done| && |done| + |todo| == root.Length && root[..] == done + todo
    requires TocLoop(whole, image, cs, done, archive, todo, cdone, rest, offset, key)
    requires todo != [] && rest[0] == Compressed(size)
    modifies root
    ensures i' == i + 1 && i' == |done'| && |done'| + |todo'| == root.Length && root[..] == done' + todo'
    ensures TocLoop(whole, image, cs, done', archive', todo', cdone', rest', offset', key')
  {
    var e := root[i];
    assert e == todo[0];
    var p, bytes;
    p, bytes, key', offset' := WriteRecord(e, size, offset, key);
    TocPass(whole, image, cs, done, archive, todo, cdone, rest, offset, key, p, bytes, key', offset');
    PlaceAt(done, todo, p);
    root[i] := p;
    archive' := archive + bytes;
    done', todo', cdone', rest' := done + [p], todo[1..], cdone + [rest[0]], rest[1..];
    i' := i + 1;
  }

  /** The TOC loop of `azp_compress_files`: for each entry, compression, its
      five fields ciphered with the running key, and its placement at the
      running offset; the first failed compression ends it. */
  method WriteToc(header: Header, root: array<Entry>, compress: seq<Compression>)
    returns (ok: bool, archive: seq<byte>)
    requires root.Length == header.fileCount == |compress| && AllWritable(root[..])
    modifies root
    ensures ok <==> AllCompressed(compress)
    ensures root[..] == Settle(old(root[..]), compress, header.dataOffset)
    ensures archive == HeaderBytes(header) + TocOut(Cipher, old(root[..]), compress, header.dataOffset, CipherKey).out
  {
    var n := header.fileCount;
    ghost var whole := Settle(root[..], compress, header.dataOffset);
    ghost var image := HeaderBytes(header) + TocOut(Cipher, root[..], compress, header.dataOffset, CipherKey).out;
    archive := HeaderBytes(header);
    var key := CipherKey;
    var offset := header.dataOffset;
    ghost var done: seq<Entry> := [];
    ghost var todo := root[..];
    ghost var cdone: seq<Compression> := [];
    ghost var rest := compress;
    AppendEmpty(done, whole);
    AppendEmpty(cdone, rest);
    AppendEmpty(done, todo);
    var i: nat := 0;
    while i < n
      invariant i == |done| && |done| + |todo| == n
      invariant root[..] == done + todo
      invariant TocLoop(whole, image, compress, done, archive, todo, cdone, rest, offset, key)
      decreases n - i
    {
      assert root[i] == todo[0] && compress[i] == rest[0];
      match compress[i]
      case SourceMissing =>
        TocStop(whole, image, compress, done, archive, todo, cdone, rest, offset, key);
        return false, archive;
      case CompressFailed =>
        TocStop(whole, image, compress, done, archive, todo, cdone, rest, offset, key);
        root[i] := Touched(root[i], compress[i]);
        return false, archive;
      case Compressed(size) =>
        i, archive, offset, key, done, todo, cdone, rest :=
          PlaceNext(root, i, size, archive, offset, key, whole, image, compress, done, todo, cdone, rest);
    }
    AppendNil(done, Settle(todo, rest, offset));
    AppendNil(archive, []);
    AppendNil(cdone, rest);
    ok := true;
  }

  /** `azp_compress_files` after the archive is opened: the header, the TOC
      loop and, when every compression succeeded, the payload loop. `files`
      are the `".tmp"` files as the payload loop finds them. */
  method CompressFiles(header: Header, root: array<Entry>, compress: seq<Compression>,
                       files: seq<Option<seq<byte>>>)
    returns (ok: bool, archive: seq<byte>)
    requires root.Length == header.fileCount == |compress| == |files| && AllWritable(root[..])
    modifies root
    ensures root[..] == Settle(old(root[..]), compress, header.dataOffset)
    ensures ok <==> AllCompressed(compress) && PayloadsReadable(root[..], files)
    ensures archive == HeaderBytes(header) + TocOut(Cipher, old(root[..]), compress, header.dataOffset, CipherKey).out +
      (if AllCompressed(compress) then PayloadOut(root[..], files) else [])
  {
    ok, archive := WriteToc(header, root, compress);
    if !ok {
      AppendNil(archive, []);
      return;
    }
    ok, archive := AppendPayloads(root, files, archive);
  }

  // ---------------------------------------------------------------------
  // What the writer produces
  // ---------------------------------------------------------------------

  /** How many compressions succeed before the first failure. */
  function FirstFailure(cs: seq<Compression>): (k: nat)
    ensures k <= |cs| && AllCompressed(cs[..k]) && (k < |cs| ==> !cs[k].Compressed?)
  {
    if cs == [] || !cs[0].Compressed? then 0
    else
      var k := FirstFailure(cs[1..]);
      assert cs[..k + 1] == [cs[0]] + cs[1..][..k];
      k + 1
  }

  /** The compressed sizes, added up. */
  function Sizes(cs: seq<Compression>): nat {
    if cs == [] then 0 else (if cs[0].Compressed? then cs[0].size else 0) + Sizes(cs[1..])
  }

  /** An entry before the first failed compression is renamed, sized and
      placed at the data offset plus the sizes before it (a `uint32_t` sum). */
  lemma {:induction false} SettlePlaced(es: seq<Entry>, cs: seq<Compression>, offset: u32, i: nat)
    requires |es| == |cs| && i < FirstFailure(cs)
    ensures Settle(es, cs, offset)[i] == Place(es[i], cs[i].size, Wrap32(offset + Sizes(cs[..i])))
    decreases i
  {
    if i > 0 {
      var size := cs[0].size;
      SettlePlaced(es[1..], cs[1..], Wrap32(offset + size), i - 1);
      assert cs[..i][1..] == cs[1..][..i - 1];
      WrapAdd(offset + size, Sizes(cs[1..][..i - 1]));
    }
  }

  /** At the first failed compression the TOC loop stops: that entry is as
      the failure left it and every later entry is untouched. */
  lemma {:induction false} SettleStopped(es: seq<Entry>, cs: seq<Compression>, offset: u32)
    requires |es| == |cs| && FirstFailure(cs) < |cs|
    ensures var r := Settle(es, cs, offset); var k := FirstFailure(cs);
      r[k] == Touched(es[k], cs[k]) && r[k + 1..] == es[k + 1..]
    decreases |es|
  {
    if cs[0].Compressed? {
      var offset' := Wrap32(offset + cs[0].size);
      SettleStopped(es[1..], cs[1..], offset');
      var k := FirstFailure(cs);
      assert Settle(es, cs, offset)[k + 1..] == Settle(es[1..], cs[1..], offset')[k..];
    }
  }

  /** The whole entry array after the TOC loop. */
  lemma SettleShape(es: seq<Entry>, cs: seq<Compression>, offset: u32)
    requires |es| == |cs|
    ensures var r := Settle(es, cs, offset); var k := FirstFailure(cs);
      (forall i | 0 <= i < k :: r[i] == Place(es[i], cs[i].size, Wrap32(offset + Sizes(cs[..i])))) &&
      (k < |cs| ==> r[k] == Touched(es[k], cs[k]) && r[k + 1..] == es[k + 1..])
  {
    forall i | 0 <= i < FirstFailure(cs)
      ensures Settle(es, cs, offset)[i] == Place(es[i], cs[i].size, Wrap32(offset + Sizes(cs[..i])))
    {
      SettlePlaced(es, cs, offset, i);
    }
    if FirstFailure(cs) < |cs| {
      SettleStopped(es, cs, offset);
    }
  }

  /** The records the TOC loop writes are those of the placed entries,
      enciphered as one run from `key`: all of them when every compression
      succeeds, none past the first failure. */
  lemma {:induction false} TocOutEncodes(c: FieldCipher, es: seq<Entry>, cs: seq<Compression>, offset: u32, key: bv32)
    requires |es| == |cs| && AllWritable(es)
    ensures AllWritable(Settle(es, cs, offset)[..FirstFailure(cs)])
    ensures TocOut(c, es, cs, offset, key) == EncodeToc(c, Settle(es, cs, offset)[..FirstFailure(cs)], key)
    decreases |es|
  {
    var r := Settle(es, cs, offset);
    var k := FirstFailure(cs);
    if es == [] || !cs[0].Compressed? {
      assert r[..k] == [];
    } else {
      TailIndex(es);
      var p := Place(es[0], cs[0].size, offset);
      var offset' := Wrap32(offset + cs[0].size);
      var first := EncodeEntry(c, p, key);
      TocOutEncodes(c, es[1..], cs[1..], offset', first.key);
      var r' := Settle(es[1..], cs[1..], offset');
      assert r == [p] + r';
      ConsTake(p, r', k);
      var tail := r'[..k - 1];
      WritableCons(p, tail);
      EncodeTocCons(c, [p] + tail, key);
    }
  }

  lemma WritableCons(p: Entry, tail: seq<Entry>)
    requires Writable(p) && AllWritable(tail)
    ensures AllWritable([p] + tail) && ([p] + tail)[0] == p
  {
  }

  /** A payload file list in front of more: the first payload comes first. */
  lemma {:induction false} PayloadBytesCons(es: seq<Entry>, files: seq<Option<seq<byte>>>)
    requires |es| == |files| > 0 && PayloadsReadable(es, files)
    ensures PayloadsReadable(es[1..], files[1..])
    ensures PayloadBytes(es, files) ==
      files[0].value[..es[0].compressedSize] + PayloadBytes(es[1..], files[1..])
    decreases |es|
  {
    var k := |es| - 1;
    assert PayloadsReadable(es[1..], files[1..]) by {
      TailIndex(es);
      TailIndex(files);
    }
    var head := files[0].value[..es[0].compressedSize];
    if k == 0 {
      AppendEmpty([], head);
      AppendNil(head, []);
    } else {
      var last := files[k].value[..es[k].compressedSize];
      assert PayloadsReadable(es[..k], files[..k]);
      PayloadBytesCons(es[..k], files[..k]);
      assert es[..k][1..] == es[1..][..k - 1] && files[..k][1..] == files[1..][..k - 1];
      assert es[1..][k - 1] == es[k] && files[1..][k - 1] == files[k];
      AppendAssoc(head, PayloadBytes(es[1..][..k - 1], files[1..][..k - 1]), last);
    }
  }

  /** When every `".tmp"` file opens and holds its payload, the payload loop
      appends all payloads one after another. */
  lemma {:induction false} PayloadOutReadable(es: seq<Entry>, files: seq<Option<seq<byte>>>)
    requires |es| == |files| && PayloadsReadable(es, files)
    ensures PayloadOut(es, files) == PayloadBytes(es, files)
    decreases |es|
  {
    if es != [] {
      PayloadBytesCons(es, files);
      PayloadOutReadable(es[1..], files[1..]);
    }
  }
}
