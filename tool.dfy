/** The helpers of the command-line tool (main.c): the size units of the
    listing, the listing's totals and the archive-name extension rule. */
module Tool {
  import opened Format

  // ---------------------------------------------------------------------
  // Size units (`sizeUnit`, main.c:46-61)
  // ---------------------------------------------------------------------

  const KiB: nat := 1024
  const MiB: nat := 1024 * 1024
  const GiB: nat := 1024 * 1024 * 1024

  /** A byte count in a unit: the unit's name and the whole number of units. */
  datatype Scaled = Scaled(unit: string, count: nat)

  /** The size of one unit of each name `sizeUnit` returns. */
  function UnitSize(unit: string): nat {
    if unit == "GiB" then GiB else if unit == "MiB" then MiB else if unit == "KiB" then KiB else 1
  }

  /** `sizeUnit(bytes, &bytesdiv)`: the largest unit that `bytes` exceeds
      (so exactly 1024 bytes stay in bytes), and `bytes` divided by it. */
  function SizeUnit(bytes: nat): (r: Scaled)
    ensures bytes <= KiB ==> r == Scaled("B", bytes)
    ensures KiB < bytes <= MiB ==> r == Scaled("KiB", bytes / KiB) && 1 <= r.count <= 1024
    ensures MiB < bytes <= GiB ==> r == Scaled("MiB", bytes / MiB) && 1 <= r.count <= 1024
    ensures GiB < bytes ==> r == Scaled("GiB", bytes / GiB) && 1 <= r.count
    ensures r.count <= bytes
  {
    if bytes > KiB then
      if bytes > MiB then
        if bytes > GiB then Scaled("GiB", bytes / GiB)
        else Scaled("MiB", bytes / MiB)
      else Scaled("KiB", bytes / KiB)
    else Scaled("B", bytes)
  }

  /** The count is `bytes` rounded down to whole units, and the unit is the
      largest one that `bytes` exceeds: a larger unit would not be exceeded
      and a smaller one would be. */
  lemma SizeUnitRoundsDown(bytes: nat)
    ensures var r := SizeUnit(bytes); var u := UnitSize(r.unit);
      r.count * u <= bytes < (r.count + 1) * u &&
      (r.unit != "B" ==> u < bytes) &&
      (r.unit != "GiB" ==> bytes <= 1024 * u)
  {
    var r := SizeUnit(bytes);
    var u := UnitSize(r.unit);
    assert r.count == bytes / u;
    assert bytes == u * (bytes / u) + bytes % u;
  }

  // ---------------------------------------------------------------------
  // Listing totals (`azp_list_entries`, main.c:64-90)
  // ---------------------------------------------------------------------

  /** The sum of the compressed sizes (`packed`) or of the uncompressed sizes. */
  function Total(es: seq<Entry>, packed: bool): nat
    decreases |es|
  {
    if es == [] then 0
    else
      var last := es[|es| - 1];
      Total(es[..|es| - 1], packed) + (if packed then last.compressedSize else last.uncompressedSize)
  }

  /** Totals add up over consecutive runs of entries. */
  lemma {:induction false} TotalAppend(a: seq<Entry>, b: seq<Entry>, packed: bool)
    ensures Total(a + b, packed) == Total(a, packed) + Total(b, packed)
    decreases |b|
  {
    if b == [] {
      assert a + b == a;
    } else {
      var k := |b| - 1;
      assert (a + b)[..|a + b| - 1] == a + b[..k];
      assert (a + b)[|a + b| - 1] == b[k];
      TotalAppend(a, b[..k], packed);
    }
  }

  /** With at most `2^32 - 1` entries of `uint32_t` sizes, a total stays
      below `2^64`: the 64-bit `size_t` sums never wrap. */
  lemma {:induction false} TotalBound(es: seq<Entry>, packed: bool)
    ensures Total(es, packed) <= |es| * (TwoTo32 - 1)
    decreases |es|
  {
    if es != [] {
      var k := |es| - 1;
      TotalBound(es[..k], packed);
      assert k * (TwoTo32 - 1) + (TwoTo32 - 1) == |es| * (TwoTo32 - 1);
    }
  }

  /** The 64-bit sums of a listing fit in `size_t`. */
  lemma TotalFits(es: seq<Entry>, packed: bool)
    requires |es| < TwoTo32
    ensures Total(es, packed) < 0x1_0000_0000_0000_0000
  {
    TotalBound(es, packed);
    assert |es| * (TwoTo32 - 1) <= (TwoTo32 - 1) * (TwoTo32 - 1);
  }

  /** The accumulation loop of `azp_list_entries` over the `file_count`
      entries, and the units the summary line prints the totals in. */
  method ListTotals(header: Header, root: array<Entry>)
    returns (compressed: nat, uncompressed: nat, shownCompressed: Scaled, shownUncompressed: Scaled)
    requires root.Length == header.fileCount
    ensures compressed == Total(root[..], true) && uncompressed == Total(root[..], false)
    ensures shownCompressed == SizeUnit(compressed) && shownUncompressed == SizeUnit(uncompressed)
  {
    compressed, uncompressed := 0, 0;
    var i: nat := 0;
    while i < header.fileCount
      invariant i <= header.fileCount
      invariant compressed == Total(root[..i], true) && uncompressed == Total(root[..i], false)
    {
      assert root[..i + 1][..i] == root[..i];
      compressed := compressed + root[i].compressedSize;
      uncompressed := uncompressed + root[i].uncompressedSize;
      i := i + 1;
    }
    assert root[..i] == root[..];
    shownCompressed := SizeUnit(compressed);
    shownUncompressed := SizeUnit(uncompressed);
  }

  // ---------------------------------------------------------------------
  // Archive name (main.c:197-199)
  // ---------------------------------------------------------------------

  /** `t` occurs in `s` from position `i` on. */
  predicate StartsAt(s: string, t: string, i: nat) {
    i + |t| <= |s| && s[i..i + |t|] == t
  }

  /** `t` occurs in `s` as a run of consecutive characters. */
  predicate Occurs(s: string, t: string) {
    exists i: nat | i <= |s| :: StartsAt(s, t, i)
  }

  /** Past the first character, `t` occurs in `s` where it occurs in `s[1..]`
      one position earlier. */
  lemma StartsAtTail(s: string, t: string, i: nat)
    requires 0 < i && 0 < |s|
    ensures StartsAt(s, t, i) <==> StartsAt(s[1..], t, i - 1)
  {
    if i + |t| <= |s| {
      assert s[i..i + |t|] == s[1..][i - 1..i - 1 + |t|];
    }
  }

  /** `strstr(s, t)`: where the first occurrence of `t` in `s` starts. */
  function Find(s: string, t: string): (r: Option<nat>)
    ensures r.Some? ==> StartsAt(s, t, r.value)
    ensures r.Some? ==> forall j: nat | j < r.value :: !StartsAt(s, t, j)
    decreases |s|
  {
    if |s| < |t| then None
    else if s[..|t|] == t then Some(0)
    else
      match Find(s[1..], t)
      case None => None
      case Some(k) =>
        StartsAtTail(s, t, k + 1);
        assert forall j: nat | j < k + 1 :: !StartsAt(s, t, j) by {
          forall j: nat | j < k + 1 ensures !StartsAt(s, t, j) {
            if j > 0 {
              StartsAtTail(s, t, j);
            }
          }
        }
        Some(k + 1)
  }

  /** `strstr` finds a substring exactly when it occurs. */
  lemma {:induction false} FindOccurs(s: string, t: string)
    ensures Find(s, t).Some? <==> Occurs(s, t)
    decreases |s|
  {
    if Find(s, t).Some? {
      assert StartsAt(s, t, Find(s, t).value);
    } else if |s| >= |t| {
      assert s[..|t|] != t;
      FindOccurs(s[1..], t);
      forall i: nat ensures !StartsAt(s, t, i) {
        if i > 0 && i + |t| <= |s| {
          StartsAtTail(s, t, i);
        }
      }
    }
  }

  const AzpExtension: string := ".azp"
  const AzpExtensionUpper: string := ".AZP"

  /** The archive name `-c` writes to: `".azp"` is appended unless ".azp"
      or ".AZP" already occurs anywhere in the name. */
  function ArchiveName(name: string): (r: string)
    ensures Occurs(name, AzpExtension) || Occurs(name, AzpExtensionUpper) ==> r == name
    ensures !Occurs(name, AzpExtension) && !Occurs(name, AzpExtensionUpper) ==> r == name + AzpExtension
  {
    FindOccurs(name, AzpExtension);
    FindOccurs(name, AzpExtensionUpper);
    if Find(name, AzpExtension).None? && Find(name, AzpExtensionUpper).None? then name + AzpExtension
    else name
  }

  /** The rule applied twice changes nothing more: every name it returns
      holds ".azp" or ".AZP". */
  lemma ArchiveNameIdempotent(name: string)
    ensures var r := ArchiveName(name);
      (Occurs(r, AzpExtension) || Occurs(r, AzpExtensionUpper)) && ArchiveName(r) == r
  {
    var r := ArchiveName(name);
    if !Occurs(name, AzpExtension) && !Occurs(name, AzpExtensionUpper) {
      assert StartsAt(r, AzpExtension, |name|);
    }
  }

  /** The extension may occur anywhere, not only at the end: such a name is
      left alone. */
  lemma InnerExtensionKept()
    ensures ArchiveName("x.azp.bak") == "x.azp.bak"
    ensures ArchiveName("x") == "x.azp"
  {
    assert StartsAt("x.azp.bak", AzpExtension, 1);
    assert !Occurs("x", AzpExtension);
  }
}
