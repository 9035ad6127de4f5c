/** What a FAT32 volume means: sectors of little-endian DWORDs, the FAT as a sequence of
    28-bit values, files as chains of clusters, and the sectors a file consists of.
    Names of on-disk fields follow Microsoft's FAT32 File System Specification 1.03.
 */
module FatVolume {
  import opened Arithmetic
  import opened Counting

  const BYTES_PER_SECTOR := 512
  const WORDS_PER_SECTOR := 128               // BYTES_PER_SECTOR / sizeof(FAT32_ENTRY)
  const CLUSTER_RANGE := 0x1000_0000          // FAT32_CLUSTER_MASK + 1
  const EOC_MARK := 0x0FFF_FFFF
  const BAD_CLUSTER := 0x0FFF_FFF7
  const UNKNOWN := 0xFFFF_FFFF
  const DWORD_RANGE := 0x1_0000_0000
  const QWORD_RANGE := 0x1_0000_0000_0000_0000
  const FSINFO_SECTOR := 1
  const FREE_COUNT := 122                     // FIELD_OFFSET(FSINFO, FSI_Free_Count) / 4
  const NXT_FREE := 123                       // FIELD_OFFSET(FSINFO, FSI_Nxt_Free) / 4

  type Dword = x: int | 0 <= x < DWORD_RANGE
  type Sector = s: seq<Dword> | |s| == WORDS_PER_SECTOR witness seq(WORDS_PER_SECTOR, _ => 0)
  type Disk = seq<Sector>

  datatype Geometry = Geometry(countOfClusters: nat, reservedSectors: nat, firstDataSector: nat, sectorsPerCluster: nat) {
    /** Entries of the FAT: one per cluster, and two reserved ones. */
    function Entries(): nat { countOfClusters + 2 }

    /** Where the free-cluster scan stops: its loop compares an absolute sector number with
        the length of the FAT in sectors. */
    function ScanLimit(): nat {
      if Entries() / WORDS_PER_SECTOR > reservedSectors
      then WORDS_PER_SECTOR * (Entries() / WORDS_PER_SECTOR - reservedSectors) else 0
    }
  }

  /** The regions follow each other: boot sector and FSINFO, the FAT, the data clusters. A cluster has
      a power of two of sectors, up to 128: a divisor of 128. */
  predicate Formatted(g: Geometry, d: Disk) {
    && 2 <= g.reservedSectors
    && g.Entries() <= BAD_CLUSTER
    && g.reservedSectors + (g.Entries() - 1) / WORDS_PER_SECTOR < g.firstDataSector < DWORD_RANGE
    && 1 <= g.sectorsPerCluster <= 128 && 128 % g.sectorsPerCluster == 0
    && g.firstDataSector <= |d| && g.countOfClusters * g.sectorsPerCluster <= |d| - g.firstDataSector
  }

  // ---------------------------------------------------------------- the FAT

  function FatSector(g: Geometry, c: nat): (r: nat)
    ensures r == g.reservedSectors + c / WORDS_PER_SECTOR
  {
    g.reservedSectors + c * 4 / BYTES_PER_SECTOR
  }

  function FatIndex(c: nat): (r: nat)
    ensures r == c % WORDS_PER_SECTOR
  {
    c % (BYTES_PER_SECTOR / 4)
  }

  lemma FatSectorIsInside(g: Geometry, d: Disk, c: nat)
    requires Formatted(g, d) && c < g.Entries()
    ensures FSINFO_SECTOR < g.reservedSectors <= FatSector(g, c) < g.firstDataSector <= |d|
  {
    assert c / WORDS_PER_SECTOR <= (g.Entries() - 1) / WORDS_PER_SECTOR;
  }

  function With(s: Sector, i: nat, w: Dword): Sector
    requires i < WORDS_PER_SECTOR
  {
    s[i := w]
  }

  function SetWord(d: Disk, s: nat, i: nat, w: Dword): Disk
    requires s < |d| && i < WORDS_PER_SECTOR
  {
    d[s := With(d[s], i, w)]
  }

  function FatWord(g: Geometry, d: Disk, c: nat): (w: Dword)
    requires Formatted(g, d) && c < g.Entries()
    ensures g.reservedSectors + c / WORDS_PER_SECTOR < |d|
    ensures w == d[g.reservedSectors + c / WORDS_PER_SECTOR][c % WORDS_PER_SECTOR]
  {
    FatSectorIsInside(g, d, c);
    d[FatSector(g, c)][FatIndex(c)]
  }

  /** The four reserved bits stay, the other 28 are replaced. */
  function Merge(w: Dword, v: int): Dword
    requires 0 <= v < CLUSTER_RANGE
  {
    w - w % CLUSTER_RANGE + v
  }

  function WriteFat(g: Geometry, d: Disk, c: nat, v: int): Disk
    requires Formatted(g, d) && c < g.Entries() && 0 <= v < CLUSTER_RANGE
  {
    FatSectorIsInside(g, d, c);
    SetWord(d, FatSector(g, c), FatIndex(c), Merge(FatWord(g, d, c), v))
  }

  ghost function Fat(g: Geometry, d: Disk): (fat: seq<int>)
    requires Formatted(g, d)
    ensures |fat| == g.Entries()
    ensures forall c :: 0 <= c < |fat| ==> fat[c] == FatWord(g, d, c) % CLUSTER_RANGE
  {
    seq(g.Entries(), c requires 0 <= c < g.Entries() => FatWord(g, d, c) % CLUSTER_RANGE)
  }

  ghost predicate SameReservedBits(g: Geometry, d: Disk, d': Disk)
    requires Formatted(g, d) && Formatted(g, d')
  {
    forall c :: 0 <= c < g.Entries() ==> FatWord(g, d', c) / CLUSTER_RANGE == FatWord(g, d, c) / CLUSTER_RANGE
  }

  /** The two disks agree outside the FAT and FSINFO. */
  ghost predicate SameOutsideFat(g: Geometry, d: Disk, d': Disk) {
    && |d| == |d'|
    && forall s :: 0 <= s < |d| && s != FSINFO_SECTOR && !(g.reservedSectors <= s < g.firstDataSector) ==> d'[s] == d[s]
  }

  /** Writing one entry changes that entry's value and nothing else. */
  lemma WriteFatEffect(g: Geometry, d: Disk, c: nat, v: int)
    requires Formatted(g, d) && c < g.Entries() && 0 <= v < CLUSTER_RANGE
    ensures var d' := WriteFat(g, d, c, v);
      && Formatted(g, d') && Fat(g, d') == Fat(g, d)[c := v]
      && SameReservedBits(g, d, d') && SameOutsideFat(g, d, d')
      && d'[FSINFO_SECTOR] == d[FSINFO_SECTOR]
  {
    FatSectorIsInside(g, d, c);
    var d' := WriteFat(g, d, c, v);
    forall e | 0 <= e < g.Entries()
      ensures FatWord(g, d', e) == if e == c then Merge(FatWord(g, d, c), v) else FatWord(g, d, e)
    {
      assert FatSector(g, e) == FatSector(g, c) && FatIndex(e) == FatIndex(c) ==> e == c;
    }
    MergeParts(FatWord(g, d, c), v);
  }

  lemma MergeParts(w: Dword, v: int)
    requires 0 <= v < CLUSTER_RANGE
    ensures Merge(w, v) % CLUSTER_RANGE == v && Merge(w, v) / CLUSTER_RANGE == w / CLUSTER_RANGE
  {
  }

  // ---------------------------------------------------------------- chains

  predicate EndMark(v: int) { v >= BAD_CLUSTER }

  /** The clusters of one file: linked one to the next, without repetition, properly ended. */
  ghost predicate IsChain(fat: seq<int>, chain: seq<nat>) {
    && |chain| > 0
    && (forall i :: 0 <= i < |chain| ==> 2 <= chain[i] < |fat|)
    && Distinct(chain)
    && (forall i :: 0 <= i < |chain| - 1 ==> fat[chain[i]] == chain[i + 1])
    && EndMark(fat[chain[|chain| - 1]])
  }

  ghost predicate Disjoint(xs: seq<nat>, ys: seq<nat>) {
    forall i, j :: 0 <= i < |xs| && 0 <= j < |ys| ==> xs[i] != ys[j]
  }

  /** Every file is a chain, no two files share a cluster, and the two reserved entries are
      not free. */
  ghost predicate Consistent(fat: seq<int>, files: seq<seq<nat>>) {
    && 2 <= |fat| <= BAD_CLUSTER && fat[0] != 0 && fat[1] != 0
    && (forall f :: 0 <= f < |files| ==> IsChain(fat, files[f]))
    && (forall f, h :: 0 <= f < |files| && 0 <= h < |files| && f != h ==> Disjoint(files[f], files[h]))
  }

  function CountFree(fat: seq<int>, lo: nat, hi: nat): nat
    requires hi <= |fat|
    decreases hi
  {
    if hi <= lo then 0 else CountFree(fat, lo, hi - 1) + if fat[hi - 1] == 0 then 1 else 0
  }

  /** The least free cluster in `[lo, hi)`, or 0. */
  function FirstFree(fat: seq<int>, lo: nat, hi: nat): (r: nat)
    requires hi <= |fat|
    ensures r != 0 ==> lo <= r < hi && fat[r] == 0 && forall c :: lo <= c < r ==> fat[c] != 0
    ensures r == 0 && lo > 0 ==> forall c :: lo <= c < hi ==> fat[c] != 0
    decreases hi - lo
  {
    if hi <= lo then 0 else if fat[lo] == 0 then lo else FirstFree(fat, lo + 1, hi)
  }

  lemma {:induction false} FirstFreeIs(fat: seq<int>, lo: nat, hi: nat, r: nat)
    requires lo <= r < hi <= |fat| && fat[r] == 0 && forall c :: lo <= c < r ==> fat[c] != 0
    ensures FirstFree(fat, lo, hi) == r
    decreases hi - lo
  {
    if lo < r {
      FirstFreeIs(fat, lo + 1, hi, r);
    }
  }

  lemma {:induction false} FirstFreeNone(fat: seq<int>, lo: nat, hi: nat)
    requires hi <= |fat| && forall c :: lo <= c < hi ==> fat[c] != 0
    ensures FirstFree(fat, lo, hi) == 0
    decreases hi - lo
  {
    if lo < hi {
      FirstFreeNone(fat, lo + 1, hi);
    }
  }

  lemma ScanLimitIsInside(g: Geometry)
    ensures g.ScanLimit() <= g.Entries()
  {
  }

  /** The scan never reaches the end of the FAT: it misses at least as many sectors of it as there
      are reserved ones before it. */
  lemma ScanMissesEnd(g: Geometry, d: Disk)
    requires Formatted(g, d)
    ensures g.ScanLimit() < g.Entries()
    ensures g.ScanLimit() == 0 || g.ScanLimit() + 128 * g.reservedSectors <= g.countOfClusters + 2
    ensures g.ScanLimit() % 128 == 0 && g.countOfClusters + 2 < g.ScanLimit() + 128 * g.reservedSectors + 128
  {
  }

  lemma ScanEnds(g: Geometry, s: int)
    requires g.reservedSectors <= s && g.Entries() / WORDS_PER_SECTOR <= s
    ensures g.ScanLimit() <= (s - g.reservedSectors) * WORDS_PER_SECTOR
  {
  }

  /** The entry at word `index` of FAT sector `s`, for the sectors the scan reaches. */
  lemma ScannedEntry(g: Geometry, s: int, index: int)
    requires g.reservedSectors <= s < g.Entries() / WORDS_PER_SECTOR && 0 <= index < WORDS_PER_SECTOR
    ensures var c := (s - g.reservedSectors) * WORDS_PER_SECTOR + index;
      0 <= c < g.ScanLimit() <= g.Entries() && FatSector(g, c) == s && FatIndex(c) == index
  {
  }

  /** The FAT after free cluster `r` is appended to the chain that ends in `last`. */
  function Linked(fat: seq<int>, last: nat, r: nat): seq<int>
    requires last < |fat| && r < |fat|
  {
    fat[r := EOC_MARK][last := r]
  }

  lemma LinkedChain(fat: seq<int>, chain: seq<nat>, r: nat)
    requires IsChain(fat, chain) && 2 <= r < |fat| && fat[r] == 0
    ensures IsChain(Linked(fat, chain[|chain| - 1], r), chain + [r])
  {
    NotFree(fat, chain);
    var fat', chain' := Linked(fat, chain[|chain| - 1], r), chain + [r];
    forall i | 0 <= i < |chain'| - 1
      ensures fat'[chain'[i]] == chain'[i + 1]
    {
      assert i < |chain| - 1 ==> chain[i] != chain[|chain| - 1];
    }
  }

  /** No cluster of a chain is free. */
  lemma NotFree(fat: seq<int>, chain: seq<nat>)
    requires IsChain(fat, chain)
    ensures forall i :: 0 <= i < |chain| ==> fat[chain[i]] != 0
  {
    forall i | 0 <= i < |chain|
      ensures fat[chain[i]] != 0
    {
      assert i < |chain| - 1 ==> fat[chain[i]] == chain[i + 1];
    }
  }

  lemma LinkedOther(fat: seq<int>, chain: seq<nat>, last: nat, r: nat)
    requires IsChain(fat, chain) && last < |fat| && r < |fat| && fat[r] == 0
    requires forall i :: 0 <= i < |chain| ==> chain[i] != last
    ensures IsChain(Linked(fat, last, r), chain)
  {
    NotFree(fat, chain);
  }

  /** Appending a free cluster to one file's chain gives that file one more cluster, leaves
      every other file its clusters, and keeps all chains acyclic and disjoint. */
  lemma ExtendKeepsConsistent(fat: seq<int>, files: seq<seq<nat>>, f: nat, r: nat)
    requires Consistent(fat, files) && f < |files| && 2 <= r < |fat| && fat[r] == 0
    ensures IsChain(fat, files[f])
    ensures Consistent(Linked(fat, files[f][|files[f]| - 1], r), files[f := files[f] + [r]])
  {
    var chain := files[f];
    var last := chain[|chain| - 1];
    var fat', files' := Linked(fat, last, r), files[f := chain + [r]];
    NotFree(fat, chain);
    forall h | 0 <= h < |files|
      ensures IsChain(fat', files'[h])
      ensures h != f ==> Disjoint(files'[f], files'[h]) && Disjoint(files'[h], files'[f])
    {
      if h == f {
        LinkedChain(fat, chain, r);
      } else {
        assert Disjoint(files[f], files[h]) && Disjoint(files[h], files[f]);
        LinkedOther(fat, files[h], last, r);
        NotFree(fat, files[h]);
      }
    }
    forall h, k | 0 <= h < |files| && 0 <= k < |files| && h != k
      ensures Disjoint(files'[h], files'[k])
    {
      if h != f && k != f {
        assert Disjoint(files[h], files[k]);
      }
    }
  }

  lemma {:induction false} CountFreeUpdate(fat: seq<int>, lo: nat, hi: nat, c: nat, v: int)
    requires hi <= |fat| && c < |fat|
    ensures CountFree(fat[c := v], lo, hi) + (if lo <= c < hi && fat[c] == 0 then 1 else 0)
            == CountFree(fat, lo, hi) + (if lo <= c < hi && v == 0 then 1 else 0)
    decreases hi
  {
    if hi > lo {
      CountFreeUpdate(fat, lo, hi - 1, c, v);
    }
  }

  /** Reserving one cluster leaves one free cluster less. */
  lemma LinkedCountFree(fat: seq<int>, last: nat, r: nat)
    requires 2 <= last < |fat| && 2 <= r < |fat| && fat[last] != 0 && fat[r] == 0
    ensures CountFree(Linked(fat, last, r), 2, |fat|) == CountFree(fat, 2, |fat|) - 1
  {
    CountFreeUpdate(fat, 2, |fat|, r, EOC_MARK);
    CountFreeUpdate(fat[r := EOC_MARK], 2, |fat|, last, r);
  }

  /** The count is of the free clusters as a set. */
  lemma {:induction false} CountFreeIsCardinality(fat: seq<int>, lo: nat, hi: nat)
    requires hi <= |fat|
    ensures CountFree(fat, lo, hi) == |set c: nat | lo <= c < hi && fat[c] == 0|
    decreases hi
  {
    var all := set c: nat | lo <= c < hi && fat[c] == 0;
    if hi <= lo {
      assert all == {};
    } else {
      CountFreeIsCardinality(fat, lo, hi - 1);
      var front := set c: nat | lo <= c < hi - 1 && fat[c] == 0;
      assert all == if fat[hi - 1] == 0 then front + {hi - 1} else front;
    }
  }

  lemma {:induction false} CountFreeFrom(fat: seq<int>, lo: nat, hi: nat)
    requires lo < hi <= |fat|
    ensures CountFree(fat, lo, hi) == (if fat[lo] == 0 then 1 else 0) + CountFree(fat, lo + 1, hi)
    decreases hi
  {
    if lo + 1 < hi {
      CountFreeFrom(fat, lo, hi - 1);
    }
  }

  /** Counting from the first free cluster on. */
  lemma {:induction false} CountFreeSkip(fat: seq<int>, lo: nat, hi: nat)
    requires 0 < lo && hi <= |fat|
    ensures CountFree(fat, lo, hi) ==
            if FirstFree(fat, lo, hi) == 0 then 0 else 1 + CountFree(fat, FirstFree(fat, lo, hi) + 1, hi)
    decreases hi - lo
  {
    if lo < hi {
      CountFreeFrom(fat, lo, hi);
      if fat[lo] != 0 {
        CountFreeSkip(fat, lo + 1, hi);
      }
    }
  }

  lemma {:induction false} CountFreeAtMost(fat: seq<int>, lo: nat, hi: nat)
    requires hi <= |fat|
    ensures CountFree(fat, lo, hi) <= hi
    decreases hi
  {
    if lo < hi {
      CountFreeAtMost(fat, lo, hi - 1);
    }
  }

  // ---------------------------------------------------------------- data sectors

  function FirstSector(g: Geometry, c: nat): int {
    (c - 2) * g.sectorsPerCluster + g.firstDataSector
  }

  /** ClusterOfSector, with the subtraction done in 64 bits. */
  function ClusterOf(g: Geometry, s: int): int
    requires g.sectorsPerCluster > 0
  {
    (s - g.firstDataSector) % QWORD_RANGE / g.sectorsPerCluster + 2
  }

  predicate ValidCluster(g: Geometry, c: int) {
    2 <= c <= g.countOfClusters + 1
  }

  lemma ClusterIsInside(g: Geometry, d: Disk, c: nat, k: nat)
    requires Formatted(g, d) && ValidCluster(g, c) && k < g.sectorsPerCluster
    ensures g.firstDataSector <= FirstSector(g, c) + k < g.firstDataSector + CLUSTER_RANGE * 256
    ensures FirstSector(g, c) + g.sectorsPerCluster <= |d|
  {
    var spc := g.sectorsPerCluster;
    MulMonotone(0, c - 2, spc);
    MulMonotone(c - 1, g.countOfClusters, spc);
    assert (c - 2) * spc + spc == (c - 1) * spc;
    MulMonotone(c - 1, CLUSTER_RANGE, spc);
  }

  /** Every sector of a cluster is recognised as that cluster's. */
  lemma ClusterOfItsSectors(g: Geometry, d: Disk, c: nat, k: nat)
    requires Formatted(g, d) && ValidCluster(g, c) && k < g.sectorsPerCluster
    ensures ClusterOf(g, FirstSector(g, c) + k) == c
  {
    hide Formatted;
    ClusterIsInside(g, d, c, k);
    var x := FirstSector(g, c) + k - g.firstDataSector;
    assert x % QWORD_RANGE == x;
    DivUnique(x, g.sectorsPerCluster, c - 2, k);
  }

  /** Sector 0, which stands for the end of a chain, is in no cluster. */
  lemma SectorZeroIsInvalid(g: Geometry, d: Disk)
    requires Formatted(g, d)
    ensures !ValidCluster(g, ClusterOf(g, 0))
  {
    ClusterOfZero(g);
    hide ClusterOf;
    DivBelow(QWORD_RANGE - g.firstDataSector, g.sectorsPerCluster, CLUSTER_RANGE);
  }

  lemma ClusterOfZero(g: Geometry)
    requires 0 < g.firstDataSector < DWORD_RANGE && 0 < g.sectorsPerCluster
    ensures ClusterOf(g, 0) == (QWORD_RANGE - g.firstDataSector) / g.sectorsPerCluster + 2
  {
    assert (0 - g.firstDataSector) % QWORD_RANGE == QWORD_RANGE - g.firstDataSector;
  }

  /** Sector `p` of a file, counted from its beginning. */
  function SectorAt(g: Geometry, chain: seq<nat>, p: nat): int
    requires g.sectorsPerCluster > 0 && p / g.sectorsPerCluster < |chain|
  {
    FirstSector(g, chain[p / g.sectorsPerCluster]) + p % g.sectorsPerCluster
  }

  predicate InRange(g: Geometry, chain: seq<nat>) {
    g.sectorsPerCluster > 0 && forall i :: 0 <= i < |chain| ==> ValidCluster(g, chain[i])
  }

  function Sectors(g: Geometry, chain: seq<nat>): nat {
    |chain| * g.sectorsPerCluster
  }

  lemma PositionInChain(g: Geometry, chain: seq<nat>, p: nat)
    requires g.sectorsPerCluster > 0
    ensures p / g.sectorsPerCluster < |chain| <==> p < Sectors(g, chain)
  {
    DivBelow(p, g.sectorsPerCluster, |chain|);
  }

  /** Position `i * sectorsPerCluster + k` of a file is sector `k` of its cluster `i`. */
  lemma SectorAtCluster(g: Geometry, chain: seq<nat>, i: nat, k: nat)
    requires i < |chain| && k < g.sectorsPerCluster
    ensures var p := i * g.sectorsPerCluster + k;
      p / g.sectorsPerCluster == i && SectorAt(g, chain, p) == FirstSector(g, chain[i]) + k
  {
    DivUnique(i * g.sectorsPerCluster + k, g.sectorsPerCluster, i, k);
  }

  lemma SectorAtIsInside(g: Geometry, d: Disk, chain: seq<nat>, p: nat)
    requires Formatted(g, d) && InRange(g, chain) && p / g.sectorsPerCluster < |chain|
    ensures g.firstDataSector <= SectorAt(g, chain, p) < |d|
    ensures ClusterOf(g, SectorAt(g, chain, p)) == chain[p / g.sectorsPerCluster]
  {
    var i, k := SplitPosition(p, g.sectorsPerCluster);
    assert SectorAt(g, chain, p) == FirstSector(g, chain[i]) + k;
    hide Formatted, SectorAt, ClusterOf, FirstSector;
    ClusterIsInside(g, d, chain[i], k);
    ClusterOfItsSectors(g, d, chain[i], k);
  }

  lemma SplitPosition(p: nat, spc: nat) returns (i: nat, k: nat)
    requires spc > 0
    ensures i == p / spc && k == p % spc && p == i * spc + k && k < spc
  {
    i, k := p / spc, p % spc;
  }

  /** Different positions of a file are different sectors. */
  lemma SectorAtInjective(g: Geometry, d: Disk, chain: seq<nat>, p: nat, q: nat)
    requires Formatted(g, d) && InRange(g, chain) && Distinct(chain)
    requires p / g.sectorsPerCluster < |chain| && q / g.sectorsPerCluster < |chain|
    requires SectorAt(g, chain, p) == SectorAt(g, chain, q)
    ensures p == q
  {
    var i, k := SplitPosition(p, g.sectorsPerCluster);
    var j, l := SplitPosition(q, g.sectorsPerCluster);
    assert SectorAt(g, chain, p) == FirstSector(g, chain[i]) + k && SectorAt(g, chain, q) == FirstSector(g, chain[j]) + l;
    hide Formatted, SectorAt, ClusterOf, FirstSector;
    SectorAtIsInside(g, d, chain, p);
    SectorAtIsInside(g, d, chain, q);
    assert chain[i] == chain[j];
    assert i == j && k == l;
  }

  /** Files without a common cluster have no common sector. */
  lemma DisjointFilesApart(g: Geometry, d: Disk, xs: seq<nat>, ys: seq<nat>, p: nat, q: nat)
    requires Formatted(g, d) && InRange(g, xs) && InRange(g, ys) && Disjoint(xs, ys)
    requires p / g.sectorsPerCluster < |xs| && q / g.sectorsPerCluster < |ys|
    ensures SectorAt(g, xs, p) != SectorAt(g, ys, q)
  {
    hide Formatted, ClusterOf, SectorAt;
    SectorAtIsInside(g, d, xs, p);
    SectorAtIsInside(g, d, ys, q);
  }

  /** The sectors `lo` to `hi` of a file. */
  function Slice(g: Geometry, d: Disk, chain: seq<nat>, lo: nat, hi: nat): (r: seq<Sector>)
    requires Formatted(g, d) && InRange(g, chain) && lo <= hi <= Sectors(g, chain)
    ensures |r| == hi - lo
    ensures forall j :: 0 <= j < hi - lo ==> r[j] == SectorOfFile(g, d, chain, lo + j)
    decreases hi
  {
    if lo == hi then [] else Slice(g, d, chain, lo, hi - 1) + [SectorOfFile(g, d, chain, hi - 1)]
  }

  function SectorOfFile(g: Geometry, d: Disk, chain: seq<nat>, p: nat): Sector
    requires Formatted(g, d) && InRange(g, chain) && p < Sectors(g, chain)
  {
    PositionInChain(g, chain, p);
    SectorAtIsInside(g, d, chain, p);
    d[SectorAt(g, chain, p)]
  }

  /** Where that is on the disk, from the geometry alone. */
  lemma SectorOfFileIs(g: Geometry, d: Disk, chain: seq<nat>, p: nat)
    requires Formatted(g, d) && InRange(g, chain) && p < |chain| * g.sectorsPerCluster
    ensures 0 < g.sectorsPerCluster && p / g.sectorsPerCluster < |chain|
    ensures var s := (chain[p / g.sectorsPerCluster] - 2) * g.sectorsPerCluster + g.firstDataSector + p % g.sectorsPerCluster;
      0 <= s < |d| && SectorOfFile(g, d, chain, p) == d[s]
  {
    PositionInChain(g, chain, p);
    SectorAtIsInside(g, d, chain, p);
  }

  // ---------------------------------------------------------------- directory entries

  const ENTRIES_PER_SECTOR := 16              // BYTES_PER_SECTOR / sizeof(DIR_ENTRY)
  const ENTRY_WORDS := 8

  /** A DIR_ENTRY as its eight DWORDs. */
  type DirEntry = e: seq<Dword> | |e| == ENTRY_WORDS witness seq(ENTRY_WORDS, _ => 0)

  /** Entry `e` of the directory cluster that starts at sector `s`. */
  function DirEntryAt(d: Disk, s: nat, e: nat): (r: DirEntry)
    requires s + e / ENTRIES_PER_SECTOR < |d|
    ensures forall w :: 0 <= w < 8 ==> r[w] == d[s + e / 16][e % 16 * 8 + w]
  {
    var at := ENTRY_WORDS * (e % ENTRIES_PER_SECTOR);
    d[s + e / ENTRIES_PER_SECTOR][at..at + ENTRY_WORDS]
  }

  /** Unused entries and parts of long names are passed over. */
  predicate Skipped(entry: DirEntry) {
    var name0, attributes := entry[0] % 0x100, entry[2] / 0x100_0000;
    name0 == 0xE5 || name0 == 0x05 || attributes % 0x40 == 0x0F
  }

  function EntryCluster(entry: DirEntry): int {
    entry[5] % 0x1_0000 * 0x1_0000 + entry[6] / 0x1_0000
  }

  predicate EntryMatches(entry: DirEntry, cluster: int) {
    !Skipped(entry) && EntryCluster(entry) == cluster
  }

  /** Byte `k` of an entry, and the little-endian 16-bit field that starts there. */
  function EntryByte(entry: DirEntry, k: nat): int
    requires k < 32
  {
    var w := entry[k / 4];
    if k % 4 == 0 then w % 0x100 else if k % 4 == 1 then w / 0x100 % 0x100
    else if k % 4 == 2 then w / 0x1_0000 % 0x100 else w / 0x100_0000
  }

  function EntryField(entry: DirEntry, k: nat): int
    requires k < 31
  {
    EntryByte(entry, k) + 0x100 * EntryByte(entry, k + 1)
  }

  /** The entry is that of the file whose first cluster is `cluster`, byte by byte as the FAT standard
      lays entries out: it is neither free (DIR_Name[0] at byte 0) nor part of a long name (DIR_Attr
      at byte 11), and DIR_FstClusHI at byte 20 and DIR_FstClusLO at byte 26 give the cluster. */
  predicate StandsFor(entry: DirEntry, cluster: int) {
    && EntryByte(entry, 0) != 0xE5 && EntryByte(entry, 0) != 0x05
    && EntryByte(entry, 11) % 0x40 != 0x0F
    && cluster == EntryField(entry, 20) * 0x1_0000 + EntryField(entry, 26)
  }

  /** That is what the code's test of an entry finds out. */
  lemma MatchesIffStandsFor(entry: DirEntry, cluster: int)
    ensures EntryMatches(entry, cluster) <==> StandsFor(entry, cluster)
  {
    HalfOf(entry[5]);
    HalfOf(entry[6]);
  }

  lemma HalfOf(w: Dword)
    ensures w % 0x100 + 0x100 * (w / 0x100 % 0x100) == w % 0x1_0000
    ensures w / 0x1_0000 % 0x100 + 0x100 * (w / 0x100_0000) == w / 0x1_0000
  {
    DivUnique(w, 0x1_0000, w / 0x100 / 0x100, w % 0x100 + 0x100 * (w / 0x100 % 0x100));
    DivUnique(w, 0x100_0000, w / 0x1_0000 / 0x100, w % 0x1_0000 + 0x1_0000 * (w / 0x1_0000 % 0x100));
  }

  /** The same by halves of words: whatever time and date share the words with the cluster. */
  lemma StandsForCluster(entry: DirEntry, hi: int, lo: int, time: int, date: int, cluster: int)
    requires 0 <= hi < 0x1_0000 && 0 <= lo < 0x1_0000 && 0 <= time < 0x1_0000 && 0 <= date < 0x1_0000
    requires entry[5] == hi + 0x1_0000 * time && entry[6] == date + 0x1_0000 * lo
    ensures StandsFor(entry, cluster) <==>
      && entry[0] % 0x100 != 0xE5 && entry[0] % 0x100 != 0x05 && entry[2] / 0x100_0000 % 0x40 != 0x0F
      && cluster == 0x1_0000 * hi + lo
    ensures EntryMatches(entry, cluster) <==> StandsFor(entry, cluster)
  {
    MatchesIffStandsFor(entry, cluster);
    BytesOf(entry);
    hide EntryByte, EntryField, EntryMatches;
    Halves(hi, time);
    Halves(date, lo);
  }

  lemma Halves(low: int, high: int)
    requires 0 <= low < 0x1_0000 && 0 <= high
    ensures (low + 0x1_0000 * high) % 0x1_0000 == low && (low + 0x1_0000 * high) / 0x1_0000 == high
  {
  }

  lemma BytesOf(entry: DirEntry)
    ensures EntryByte(entry, 0) == entry[0] % 0x100 && EntryByte(entry, 11) == entry[2] / 0x100_0000
    ensures EntryField(entry, 20) == entry[5] % 0x1_0000 && EntryField(entry, 26) == entry[6] / 0x1_0000
  {
    HalfOf(entry[5]);
    HalfOf(entry[6]);
  }

  /** The disk with that entry replaced. */
  function PutDirEntry(d: Disk, s: nat, e: nat, entry: DirEntry): Disk
    requires s + e / ENTRIES_PER_SECTOR < |d|
  {
    d[s + e / ENTRIES_PER_SECTOR := PutInSector(d[s + e / ENTRIES_PER_SECTOR], e % ENTRIES_PER_SECTOR, entry)]
  }

  function PutInSector(sector: Sector, slot: nat, entry: DirEntry): Sector
    requires slot < ENTRIES_PER_SECTOR
  {
    sector[..ENTRY_WORDS * slot] + entry + sector[ENTRY_WORDS * slot + ENTRY_WORDS..]
  }

  lemma PutInSectorKeepsOthers(sector: Sector, slot: nat, entry: DirEntry, slot': nat)
    requires slot < ENTRIES_PER_SECTOR && slot' < ENTRIES_PER_SECTOR
    ensures PutInSector(sector, slot, entry)[ENTRY_WORDS * slot'..ENTRY_WORDS * slot' + ENTRY_WORDS] ==
            if slot' == slot then entry else sector[ENTRY_WORDS * slot'..ENTRY_WORDS * slot' + ENTRY_WORDS]
  {
    assert slot < slot' ==> ENTRY_WORDS * slot + ENTRY_WORDS <= ENTRY_WORDS * slot';
    assert slot' < slot ==> ENTRY_WORDS * slot' + ENTRY_WORDS <= ENTRY_WORDS * slot;
  }

  /** Replacing one entry keeps every other entry of the disk. */
  lemma PutDirEntryKeepsOthers(d: Disk, s: nat, e: nat, entry: DirEntry, s': nat, e': nat)
    requires s + e / ENTRIES_PER_SECTOR < |d| && s' + e' / ENTRIES_PER_SECTOR < |d|
    ensures DirEntryAt(PutDirEntry(d, s, e, entry), s', e') ==
            if s + e / ENTRIES_PER_SECTOR == s' + e' / ENTRIES_PER_SECTOR
               && e % ENTRIES_PER_SECTOR == e' % ENTRIES_PER_SECTOR
            then entry else DirEntryAt(d, s', e')
  {
    hide PutInSector;
    PutInSectorKeepsOthers(d[s + e / ENTRIES_PER_SECTOR], e % ENTRIES_PER_SECTOR, entry, e' % ENTRIES_PER_SECTOR);
  }

  /** The entry after a read: only the date of last access changes. */
  function Accessed(entry: DirEntry, date: int): DirEntry
    requires 0 <= date < 0x1_0000
  {
    entry[4 := entry[4] % 0x1_0000 + 0x1_0000 * date]
  }

  /** The entry after a write: access and write times, and the size if it grew. */
  function Stamped(entry: DirEntry, nextByte: Dword, date: int, time: int): DirEntry
    requires 0 <= date < 0x1_0000 && 0 <= time < 0x1_0000
  {
    Accessed(entry, date)[5 := entry[5] % 0x1_0000 + 0x1_0000 * time]
                         [6 := entry[6] - entry[6] % 0x1_0000 + date]
                         [7 := if nextByte > entry[7] then nextByte else entry[7]]
  }

  // DIR_LstAccDate, DIR_WrtTime, DIR_WrtDate and DIR_FileSize, by their byte offsets.
  function AccessDate(entry: DirEntry): int { EntryField(entry, 18) }

  function WriteTime(entry: DirEntry): int { EntryField(entry, 22) }

  function WriteDate(entry: DirEntry): int { EntryField(entry, 24) }

  function FileSize(entry: DirEntry): int { EntryField(entry, 28) + 0x1_0000 * EntryField(entry, 30) }

  /** The 16-bit fields as halves of the words. */
  lemma FieldsAreHalves(entry: DirEntry)
    ensures AccessDate(entry) == entry[4] / 0x1_0000 && EntryField(entry, 16) == entry[4] % 0x1_0000
    ensures EntryField(entry, 20) == entry[5] % 0x1_0000 && WriteTime(entry) == entry[5] / 0x1_0000
    ensures WriteDate(entry) == entry[6] % 0x1_0000 && EntryField(entry, 26) == entry[6] / 0x1_0000
    ensures FileSize(entry) == entry[7]
  {
    HalfOf(entry[4]);
    HalfOf(entry[5]);
    HalfOf(entry[6]);
    HalfOf(entry[7]);
  }

  /** From one state of an entry to the next: a read sets the access date and nothing else. */
  predicate ReadNoted(entry: DirEntry, entry': DirEntry, date: int) {
    && AccessDate(entry') == date
    && forall k :: 0 <= k < 32 && !(18 <= k < 20) ==> EntryByte(entry', k) == EntryByte(entry, k)
  }

  /** A write sets both dates and the time, the size becomes the larger of the old one and the end of
      the write, and nothing else changes. */
  predicate WriteNoted(entry: DirEntry, entry': DirEntry, nextByte: int, date: int, time: int) {
    && AccessDate(entry') == date && WriteDate(entry') == date && WriteTime(entry') == time
    && FileSize(entry') == (if FileSize(entry) < nextByte then nextByte else FileSize(entry))
    && forall k :: 0 <= k < 32 && !(18 <= k < 20) && !(22 <= k < 26) && !(28 <= k < 32) ==>
         EntryByte(entry', k) == EntryByte(entry, k)
  }

  /** That is what the code's changes to an entry come to. */
  lemma UpdatedFields(entry: DirEntry, nextByte: Dword, date: int, time: int)
    requires 0 <= date < 0x1_0000 && 0 <= time < 0x1_0000
    ensures ReadNoted(entry, Accessed(entry, date), date)
    ensures WriteNoted(entry, Stamped(entry, nextByte, date, time), nextByte, date, time)
  {
    AccessedFields(entry, date);
    StampedFields(entry, nextByte, date, time);
  }

  lemma AccessedFields(entry: DirEntry, date: int)
    requires 0 <= date < 0x1_0000
    ensures ReadNoted(entry, Accessed(entry, date), date)
  {
    var access := Accessed(entry, date);
    assert access[4] == entry[4] % 0x1_0000 + 0x1_0000 * date;
    assert forall w :: 0 <= w < 8 && w != 4 ==> access[w] == entry[w];
    hide AccessDate, WriteTime, WriteDate, FileSize, EntryField, Accessed;
    FieldsAreHalves(access);
    SameHalves(entry[4], access[4]);
  }

  lemma StampedFields(entry: DirEntry, nextByte: Dword, date: int, time: int)
    requires 0 <= date < 0x1_0000 && 0 <= time < 0x1_0000
    ensures WriteNoted(entry, Stamped(entry, nextByte, date, time), nextByte, date, time)
  {
    var stamped := Stamped(entry, nextByte, date, time);
    assert stamped[4] == entry[4] % 0x1_0000 + 0x1_0000 * date;
    assert stamped[7] == if nextByte > entry[7] then nextByte else entry[7];
    assert stamped[5] == entry[5] % 0x1_0000 + 0x1_0000 * time && stamped[6] == entry[6] - entry[6] % 0x1_0000 + date;
    assert forall w :: 0 <= w < 4 ==> stamped[w] == entry[w];
    hide AccessDate, WriteTime, WriteDate, FileSize, EntryField, Accessed, Stamped;
    FieldsAreHalves(entry);
    FieldsAreHalves(stamped);
    SameHalves(entry[4], stamped[4]);
    SameHalves(entry[5], stamped[5]);
    SameHalves(entry[6], stamped[6]);
  }

  /** A half that stays, stays byte by byte. */
  lemma SameHalves(w: Dword, w': Dword)
    ensures w % 0x1_0000 == w' % 0x1_0000 ==> w % 0x100 == w' % 0x100 && w / 0x100 % 0x100 == w' / 0x100 % 0x100
    ensures w / 0x1_0000 == w' / 0x1_0000 ==>
      w / 0x1_0000 % 0x100 == w' / 0x1_0000 % 0x100 && w / 0x100_0000 == w' / 0x100_0000
  {
    HalfOf(w);
    HalfOf(w');
  }

  /** Neither update makes the entry stand for another file. */
  lemma UpdatesKeepMatch(entry: DirEntry, nextByte: Dword, date: int, time: int, cluster: int)
    requires 0 <= date < 0x1_0000 && 0 <= time < 0x1_0000
    ensures StandsFor(Accessed(entry, date), cluster) <==> StandsFor(entry, cluster)
    ensures StandsFor(Stamped(entry, nextByte, date, time), cluster) <==> StandsFor(entry, cluster)
  {
    hide StandsFor;
    MatchesIffStandsFor(entry, cluster);
    MatchesIffStandsFor(Accessed(entry, date), cluster);
    MatchesIffStandsFor(Stamped(entry, nextByte, date, time), cluster);
  }
}
