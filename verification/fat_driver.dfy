/** The FAT driver's code: following and extending cluster chains, and reading and writing
    files by sector, on a volume device that reads and writes whole sectors. Device I/O and
    pool allocation succeed; a failed ASSERT is the status Panic.
 */
module FatDriver {
  import opened FatVolume
  import opened Arithmetic
  import opened Counting

  datatype Status = Success | Unsuccessful | ClusterInvalid | ElementNotFound | Panic

  /** What NextClusterInChain makes of an entry: a free or bad entry ends the chain too. */
  function Follow(v: int): int {
    if v == 0 || v == BAD_CLUSTER then EOC_MARK else v
  }

  predicate IsEoc(cluster: int) { cluster > BAD_CLUSTER }

  /** The search that starts at `first` reads at least one sector of the FAT. */
  predicate Scans(g: Geometry, first: int) {
    first < g.Entries() && g.reservedSectors + first / WORDS_PER_SECTOR < g.Entries() / WORDS_PER_SECTOR
  }

  /** A search from `first` on meets a reserved entry that is free. */
  predicate ReservedIsFree(fat: seq<int>, first: nat)
    requires |fat| >= 2
  {
    (first == 0 && fat[0] == 0) || (first <= 1 && fat[1] == 0)
  }

  lemma FormattedIsSmall(g: Geometry, d: Disk)
    requires Formatted(g, d)
    ensures g.Entries() <= BAD_CLUSTER && 2 <= g.reservedSectors && 0 < g.sectorsPerCluster
  {
  }

  lemma FsInfoIsInside(g: Geometry, d: Disk)
    requires Formatted(g, d)
    ensures FSINFO_SECTOR < g.firstDataSector <= |d|
  {
  }

  /** Where the scan reads nothing, nothing is left to count. */
  lemma CountBeyondScan(g: Geometry, d: Disk, first: nat)
    requires Formatted(g, d) && !Scans(g, first) && g.ScanLimit() <= g.Entries()
    ensures CountFree(Fat(g, d), first, g.ScanLimit()) == 0
  {
  }

  ghost function LinkedDisk(g: Geometry, d: Disk, last: nat, r: nat): (d': Disk)
    requires Formatted(g, d) && last < g.Entries() && r < g.ScanLimit() <= g.Entries()
    ensures Formatted(g, d') && Fat(g, d') == Linked(Fat(g, d), last, r)
    ensures SameReservedBits(g, d, d') && SameOutsideFat(g, d, d') && d'[FSINFO_SECTOR] == d[FSINFO_SECTOR]
  {
    WriteFatEffect(g, d, r, EOC_MARK);
    WriteFatEffect(g, WriteFat(g, d, r, EOC_MARK), last, r);
    WriteFat(g, WriteFat(g, d, r, EOC_MARK), last, r)
  }

  /** FSINFO after cluster `r` is reserved: the hint is `r`, and the free count one less, or
      counted anew behind `r` if it was unknown. */
  ghost function ReservedInfo(g: Geometry, linked: Disk, info: Sector, r: nat): Sector
    requires Formatted(g, linked) && r < g.ScanLimit() <= g.Entries() && info[FREE_COUNT] != 0
  {
    CountFreeAtMost(Fat(g, linked), r + 1, g.ScanLimit());
    With(With(info, NXT_FREE, r), FREE_COUNT,
         if info[FREE_COUNT] == UNKNOWN then CountFree(Fat(g, linked), r + 1, g.ScanLimit())
         else info[FREE_COUNT] - 1)
  }

  /** FSINFO after no cluster could be reserved: a full volume forgets its hint, and an unknown
      count becomes 0 if the scan ran in vain; where the scan did not run or the ASSERT failed,
      nothing changes. */
  function InfoWithoutFree(g: Geometry, info: Sector): Sector {
    if info[FREE_COUNT] == 0 then With(info, NXT_FREE, UNKNOWN)
    else if info[FREE_COUNT] == UNKNOWN && (info[NXT_FREE] < g.Entries() ==> Scans(g, info[NXT_FREE])) then
      With(With(info, FREE_COUNT, 0), NXT_FREE, UNKNOWN)
    else info
  }

  // ---------------------------------------------------------------- what can be reserved

  /** What one FAT sector says about the entries it holds. */
  lemma SectorEntries(g: Geometry, d: Disk, s: int, lo: nat, hi: nat)
    requires Formatted(g, d) && g.reservedSectors <= s < g.Entries() / WORDS_PER_SECTOR && lo <= hi <= WORDS_PER_SECTOR
    ensures s < |d| && g.ScanLimit() <= g.Entries() && g.Entries() == |Fat(g, d)|
    ensures forall j :: lo <= j < hi ==>
      var c := (s - g.reservedSectors) * WORDS_PER_SECTOR + j;
      0 <= c < g.ScanLimit() && Fat(g, d)[c] == d[s][j] % CLUSTER_RANGE
  {
    ScannedEntry(g, s, 0);
    FatSectorIsInside(g, d, (s - g.reservedSectors) * WORDS_PER_SECTOR + 0);
    forall j | lo <= j < hi
      ensures var c := (s - g.reservedSectors) * WORDS_PER_SECTOR + j;
        0 <= c < g.ScanLimit() && Fat(g, d)[c] == d[s][j] % CLUSTER_RANGE
    {
      ScannedEntry(g, s, j);
    }
  }

  /** The first free entry from `first` on tells whether a reserved one is met. */
  lemma FoundReserved(fat: seq<int>, first: nat, r: nat)
    requires 2 <= |fat| && first <= r < |fat| && fat[r] == 0 && forall c :: first <= c < r ==> fat[c] != 0
    ensures ReservedIsFree(fat, first) <==> r < 2
  {
    assert first == 0 && r > 0 ==> fat[0] != 0;
    assert first <= 1 && r > 1 ==> fat[1] != 0;
  }

  lemma FoundNone(fat: seq<int>, first: nat, limit: nat)
    requires 2 <= limit <= |fat| && forall c :: first <= c < limit ==> fat[c] != 0
    ensures !ReservedIsFree(fat, first)
  {
  }

  /** What scans at all scans the two reserved entries if it starts there. */
  lemma ScanCoversReserved(g: Geometry, first: nat)
    requires Scans(g, first)
    ensures 2 <= g.ScanLimit()
  {
  }

  lemma ScansIffBelowLimit(g: Geometry, first: nat)
    ensures Scans(g, first) <==> first < g.ScanLimit()
  {
  }

  /** The cluster that the next extension of a chain reserves, or 0. */
  ghost function Reservation(g: Geometry, d: Disk): nat
    requires Formatted(g, d)
  {
    ScanLimitIsInside(g);
    var info := d[FSINFO_SECTOR];
    if info[FREE_COUNT] == 0 || !Scans(g, info[NXT_FREE]) then 0
    else FirstFree(Fat(g, d), info[NXT_FREE], g.ScanLimit())
  }

  /** The ASSERT that only an unknown free count allows a vain search: it fails when the count is
      known and not 0, and the hint is behind the FAT or the scan finds nothing from it on. */
  ghost predicate AssertFails(g: Geometry, d: Disk)
    requires Formatted(g, d)
  {
    ScanLimitIsInside(g);
    var info := d[FSINFO_SECTOR];
    && info[FREE_COUNT] != 0 && info[FREE_COUNT] != UNKNOWN
    && (info[NXT_FREE] >= g.Entries()
        || (Scans(g, info[NXT_FREE]) && forall c :: info[NXT_FREE] <= c < g.ScanLimit() ==> Fat(g, d)[c] != 0))
  }

  /** How many clusters can still be reserved, one after the other: as many as are free from the hint
      up to where the scan ends, but no more than a known free count says. */
  ghost function Available(g: Geometry, d: Disk): nat
    requires Formatted(g, d)
  {
    ScanLimitIsInside(g);
    var info := d[FSINFO_SECTOR];
    if info[FREE_COUNT] == 0 || !Scans(g, info[NXT_FREE]) then 0
    else
      var found := CountFree(Fat(g, d), info[NXT_FREE], g.ScanLimit());
      if info[FREE_COUNT] == UNKNOWN then found else Min(info[FREE_COUNT], found)
  }

  /** The free count is known and says more than the scan can find. */
  ghost predicate Overstated(g: Geometry, d: Disk)
    requires Formatted(g, d)
  {
    ScanLimitIsInside(g);
    var info := d[FSINFO_SECTOR];
    && info[FREE_COUNT] != 0 && info[FREE_COUNT] != UNKNOWN
    && (info[NXT_FREE] >= g.Entries()
        || (Scans(g, info[NXT_FREE]) && info[FREE_COUNT] > CountFree(Fat(g, d), info[NXT_FREE], g.ScanLimit())))
  }

  /** What is reserved, and when the ASSERT fails, from words 122 and 123 of FSINFO, the free count and
      the hint, and the entries of the FAT. */
  lemma ReservationIs(g: Geometry, d: Disk)
    requires Formatted(g, d) && Fat(g, d)[0] != 0 && Fat(g, d)[1] != 0
    ensures g.ScanLimit() <= g.Entries() && 1 < |d|
    ensures var count, hint, r := d[1][122], d[1][123], Reservation(g, d);
      && (r != 0 <==> count != 0 && exists c: nat :: hint <= c < g.ScanLimit() && Fat(g, d)[c] == 0)
      && (r != 0 ==> hint <= r < g.ScanLimit() && Fat(g, d)[r] == 0 && forall c: nat :: hint <= c < r ==> Fat(g, d)[c] != 0)
      && (AssertFails(g, d) <==>
            && count != 0 && count != 0xFFFF_FFFF
            && (hint >= g.countOfClusters + 2
                || (hint < g.ScanLimit() && forall c: nat :: hint <= c < g.ScanLimit() ==> Fat(g, d)[c] != 0)))
  {
    ScanLimitIsInside(g);
    FsInfoIsInside(g, d);
    ScansIffBelowLimit(g, d[1][123]);
    if d[1][123] < g.ScanLimit() {
      FreeFromHint(Fat(g, d), d[1][123], g.ScanLimit());
    }
    hide Formatted, Fat, CountFree, Scans, Geometry.ScanLimit;
  }

  /** FSINFO after a refusal: a full volume forgets its hint, and an unknown count becomes 0 unless the
      hint is in the part of the FAT that is not scanned. */
  lemma RefusedInfo(g: Geometry, info: Sector)
    ensures var count, hint, info' := info[122], info[123], InfoWithoutFree(g, info);
            var vain := count == 0xFFFF_FFFF && !(g.ScanLimit() <= hint < g.countOfClusters + 2);
      && info'[122] == (if vain then 0 else count)
      && info'[123] == (if vain || count == 0 then 0xFFFF_FFFF else hint)
      && forall w :: 0 <= w < 128 && w != 122 && w != 123 ==> info'[w] == info[w]
  {
    ScansIffBelowLimit(g, info[123]);
    hide Scans, Geometry.ScanLimit;
  }

  /** Both from words 122 and 123 of FSINFO, the free count and the hint, and from how many clusters are
      free from the hint up to where the scan ends. */
  lemma AvailableIs(g: Geometry, d: Disk)
    requires Formatted(g, d)
    ensures g.ScanLimit() <= g.Entries() && 1 < |d|
    ensures var count, hint := d[1][122], d[1][123];
            var free := |set c: nat | hint <= c < g.ScanLimit() && Fat(g, d)[c] == 0|;
      && Available(g, d) == (if count == 0xFFFF_FFFF || free <= count then free else count)
      && (Overstated(g, d) <==>
            && count != 0 && count != 0xFFFF_FFFF
            && (hint >= g.countOfClusters + 2 || (hint < g.ScanLimit() && free < count)))
  {
    ScanLimitIsInside(g);
    FsInfoIsInside(g, d);
    CountFreeIsCardinality(Fat(g, d), d[1][123], g.ScanLimit());
    ScansIffBelowLimit(g, d[1][123]);
    hide Formatted, Fat, Scans, Geometry.ScanLimit;
  }

  /** Something can be reserved iff anything is available; and where nothing is, the ASSERT fails iff
      the free count is overstated. */
  lemma ReservesIffAvailable(g: Geometry, d: Disk)
    requires Formatted(g, d) && Fat(g, d)[0] != 0 && Fat(g, d)[1] != 0
    ensures Available(g, d) > 0 <==> Reservation(g, d) != 0
    ensures AssertFails(g, d) <==> Available(g, d) == 0 && Overstated(g, d)
  {
    ScanLimitIsInside(g);
    var info := d[FSINFO_SECTOR];
    if Scans(g, info[NXT_FREE]) {
      ScansIffBelowLimit(g, info[NXT_FREE]);
      FreeFromHint(Fat(g, d), info[NXT_FREE], g.ScanLimit());
    }
  }

  /** Counting from a hint that may be one of the two reserved entries. */
  lemma FreeFromHint(fat: seq<int>, lo: nat, hi: nat)
    requires lo < hi <= |fat| && fat[0] != 0 && (1 < |fat| ==> fat[1] != 0)
    ensures var r := FirstFree(fat, lo, hi);
      && CountFree(fat, lo, hi) == (if r == 0 then 0 else 1 + CountFree(fat, r + 1, hi))
      && (r == 0 <==> forall c :: lo <= c < hi ==> fat[c] != 0)
      && (r != 0 ==> r >= 2)
  {
    if lo == 0 {
      CountFreeFrom(fat, 0, hi);
      CountFreeSkip(fat, 1, hi);
      assert FirstFree(fat, 0, hi) == FirstFree(fat, 1, hi);
    } else {
      CountFreeSkip(fat, lo, hi);
    }
  }

  /** The ASSERT in terms of what the search gives. */
  lemma ReservationFails(g: Geometry, d: Disk)
    requires Formatted(g, d) && Fat(g, d)[0] != 0 && Fat(g, d)[1] != 0
    ensures var info := d[FSINFO_SECTOR];
      AssertFails(g, d) <==>
        && info[FREE_COUNT] != 0 && info[FREE_COUNT] != UNKNOWN && Reservation(g, d) == 0
        && (info[NXT_FREE] < g.Entries() ==> Scans(g, info[NXT_FREE]))
  {
    ScanLimitIsInside(g);
    var hint := d[FSINFO_SECTOR][NXT_FREE];
    if Scans(g, hint) {
      ScansIffBelowLimit(g, hint);
      FreeFromHint(Fat(g, d), hint, g.ScanLimit());
    }
  }

  lemma LinkedFree(fat: seq<int>, last: nat, r: nat, limit: nat)
    requires last < |fat| && r < limit <= |fat| && fat[last] != 0 && fat[r] == 0 && r != 0
    ensures CountFree(Linked(fat, last, r), r, limit) == CountFree(Linked(fat, last, r), r + 1, limit)
         == CountFree(fat, r + 1, limit)
  {
    CountFreeUpdate(fat, r + 1, limit, r, EOC_MARK);
    CountFreeUpdate(fat[r := EOC_MARK], r + 1, limit, last, r);
    CountFreeFrom(Linked(fat, last, r), r, limit);
  }

  /** FSINFO and the FAT after the reservation. */
  lemma AppendedInfo(g: Geometry, d: Disk, last: nat, r: nat)
    requires Formatted(g, d) && last < g.Entries() && r < g.ScanLimit() <= g.Entries()
    requires d[FSINFO_SECTOR][FREE_COUNT] != 0
    ensures var d', fat' := Appended(g, d, last, r), Linked(Fat(g, d), last, r);
      && Formatted(g, d') && Fat(g, d') == fat' && d'[FSINFO_SECTOR][NXT_FREE] == r
      && CountFree(fat', r + 1, g.ScanLimit()) < BAD_CLUSTER
      && d'[FSINFO_SECTOR][FREE_COUNT] ==
           if d[FSINFO_SECTOR][FREE_COUNT] == UNKNOWN then CountFree(fat', r + 1, g.ScanLimit())
           else d[FSINFO_SECTOR][FREE_COUNT] - 1
  {
    hide Formatted, Fat, CountFree, LinkedDisk, Geometry.ScanLimit, SameReservedBits;
    FormattedIsSmall(g, d);
    ScanMissesEnd(g, d);
    FsInfoIsInside(g, d);
    FsInfoChange(g, LinkedDisk(g, d, last, r), Appended(g, d, last, r));
    CountFreeAtMost(Linked(Fat(g, d), last, r), r + 1, g.ScanLimit());
  }

  /** A reservation uses up one of the available clusters, and nothing else of what there is. */
  lemma ReservingUsesOne(g: Geometry, d: Disk, last: nat)
    requires Formatted(g, d) && Fat(g, d)[0] != 0 && Fat(g, d)[1] != 0
    requires 2 <= last < g.Entries() && Fat(g, d)[last] != 0 && Reservation(g, d) != 0
    ensures var r := Reservation(g, d);
      && 2 <= r < g.ScanLimit() <= g.Entries() && d[FSINFO_SECTOR][FREE_COUNT] != 0 && Fat(g, d)[r] == 0
      && var d' := Appended(g, d, last, r);
         Formatted(g, d') && Available(g, d') == Available(g, d) - 1 && (Overstated(g, d') <==> Overstated(g, d))
  {
    hide Formatted, Fat, FirstFree, CountFree, Linked, Appended, Geometry.ScanLimit, Scans, Available, Overstated;
    ScanLimitIsInside(g);
    FsInfoIsInside(g, d);
    var hint, fat, limit := d[FSINFO_SECTOR][NXT_FREE], Fat(g, d), g.ScanLimit();
    var r := Reservation(g, d);
    ScansIffBelowLimit(g, hint);
    FreeFromHint(fat, hint, limit);
    AppendedInfo(g, d, last, r);
    FsInfoIsInside(g, Appended(g, d, last, r));
    LinkedFree(fat, last, r, limit);
    ScansIffBelowLimit(g, r);
    ScanningCounts(g, d);
    ScanningCounts(g, Appended(g, d, last, r));
  }

  /** Where the hint is scanned from, both are matters of two numbers. */
  lemma ScanningCounts(g: Geometry, d: Disk)
    requires Formatted(g, d) && Scans(g, d[FSINFO_SECTOR][NXT_FREE])
    ensures g.ScanLimit() <= g.Entries()
    ensures var count, found := d[FSINFO_SECTOR][FREE_COUNT], CountFree(Fat(g, d), d[FSINFO_SECTOR][NXT_FREE], g.ScanLimit());
      && Available(g, d) == (if count == 0 then 0 else if count == UNKNOWN then found else Min(count, found))
      && (Overstated(g, d) <==> count != 0 && count != UNKNOWN && count > found)
  {
    ScanLimitIsInside(g);
    hide Formatted, Fat, CountFree, Geometry.ScanLimit;
  }

  /** A vain reservation leaves nothing available, as it was before. */
  lemma RefusalChangesNothing(g: Geometry, d: Disk, d': Disk)
    requires Formatted(g, d) && Fat(g, d)[0] != 0 && Fat(g, d)[1] != 0 && Reservation(g, d) == 0
    requires d' == d[FSINFO_SECTOR := InfoWithoutFree(g, d[FSINFO_SECTOR])]
    ensures Formatted(g, d') && Available(g, d') == Available(g, d) == 0 && (Overstated(g, d') <==> Overstated(g, d))
  {
    FsInfoChange(g, d, d');
    ReservesIffAvailable(g, d);
    FormattedIsSmall(g, d);
  }

  /** Writing data changes nothing about it either. */
  lemma DataWriteKeepsAvailable(g: Geometry, d: Disk, d': Disk)
    requires Formatted(g, d) && Formatted(g, d') && Fat(g, d') == Fat(g, d)
    requires FSINFO_SECTOR < |d| && |d'| == |d| && d'[FSINFO_SECTOR] == d[FSINFO_SECTOR]
    ensures Available(g, d') == Available(g, d) && (Overstated(g, d') <==> Overstated(g, d))
  {
  }

  // ---------------------------------------------------------------- a volume that fails the ASSERT

  const SMALL := Geometry(2, 2, 3, 1)

  /** Two clusters, the second one free, a correct free count of 1, and no hint. */
  function HintlessVolume(): (d: Disk)
    ensures |d| == 5 && d[FSINFO_SECTOR][FREE_COUNT] == 1 && d[FSINFO_SECTOR][NXT_FREE] == UNKNOWN
    ensures d[2][0] == 0x0FFF_FFF8 && d[2][1] == d[2][2] == EOC_MARK && d[2][3] == 0
  {
    var zero: Sector := seq(WORDS_PER_SECTOR, _ => 0);
    [zero, zero[FREE_COUNT := 1][NXT_FREE := UNKNOWN],
     zero[0 := 0x0FFF_FFF8][1 := EOC_MARK][2 := EOC_MARK], zero, zero]
  }

  /** A consistent volume with a free cluster, an exact free count and the unknown hint that the FAT
      standard allows: extending its one file fails the ASSERT. */
  lemma HintlessVolumeFails()
    ensures var d := HintlessVolume();
      && Formatted(SMALL, d) && Consistent(Fat(SMALL, d), [[2]])
      && Fat(SMALL, d)[3] == 0 && ExactFreeCount(SMALL, d)
      && AssertFails(SMALL, d) && Reservation(SMALL, d) == 0
  {
    var d := HintlessVolume();
    var fat := Fat(SMALL, d);
    assert fat[0] == 0x0FFF_FFF8 && fat[1] == EOC_MARK && fat[2] == EOC_MARK && fat[3] == 0;
    assert IsChain(fat, [2]);
    CountFreeFrom(fat, 2, 4);
    CountFreeFrom(fat, 3, 4);
    assert SMALL.Entries() == 4;
  }

  /** The disk after `r` is appended to the chain ending in `last`: two FAT entries and the
      free count and hint of FSINFO have changed. */
  ghost function Appended(g: Geometry, d: Disk, last: nat, r: nat): (d': Disk)
    requires Formatted(g, d) && last < g.Entries() && r < g.ScanLimit() <= g.Entries()
    requires d[FSINFO_SECTOR][FREE_COUNT] != 0
  {
    var linked := LinkedDisk(g, d, last, r);
    linked[FSINFO_SECTOR := ReservedInfo(g, linked, d[FSINFO_SECTOR], r)]
  }

  ghost predicate ExactFreeCount(g: Geometry, d: Disk)
    requires Formatted(g, d)
  {
    d[FSINFO_SECTOR][FREE_COUNT] == CountFree(Fat(g, d), 2, g.Entries())
  }

  /** From `d0` to `d` only file `f` has changed, by clusters added at its end: they were free,
      every other file and every FAT entry outside file `f` is as before, the reserved bits of
      all entries are, and an exact free count is still exact. */
  ghost predicate Grown(g: Geometry, d0: Disk, files0: seq<seq<nat>>, d: Disk, files: seq<seq<nat>>, f: nat) {
    && Formatted(g, d0) && Formatted(g, d)
    && f < |files0| == |files| && files == files0[f := files[f]] && files0[f] <= files[f]
    && SameReservedBits(g, d0, d)
    && (ExactFreeCount(g, d0) ==> ExactFreeCount(g, d))
    && (forall i :: |files0[f]| <= i < |files[f]| ==> files[f][i] < g.Entries() && Fat(g, d0)[files[f][i]] == 0)
    && (forall c :: 0 <= c < g.Entries() && c !in files[f] ==> Fat(g, d)[c] == Fat(g, d0)[c])
  }

  lemma GrownReflexive(g: Geometry, d: Disk, files: seq<seq<nat>>, f: nat)
    requires Formatted(g, d) && f < |files|
    ensures Grown(g, d, files, d, files, f) && SameOutsideFat(g, d, d)
  {
  }

  lemma GrownTransitive(g: Geometry, d0: Disk, files0: seq<seq<nat>>, d1: Disk, files1: seq<seq<nat>>,
                        d2: Disk, files2: seq<seq<nat>>, f: nat)
    requires Grown(g, d0, files0, d1, files1, f) && Grown(g, d1, files1, d2, files2, f)
    requires Consistent(Fat(g, d1), files1)
    ensures Grown(g, d0, files0, d2, files2, f)
  {
    forall i | |files0[f]| <= i < |files2[f]|
      ensures files2[f][i] < g.Entries() && Fat(g, d0)[files2[f][i]] == 0
    {
      if i < |files1[f]| {
        assert files2[f][i] == files1[f][i];
      } else {
        NotFree(Fat(g, d1), files1[f]);
      }
    }
    forall c | 0 <= c < g.Entries() && c !in files2[f]
      ensures Fat(g, d2)[c] == Fat(g, d0)[c]
    {
      assert c !in files1[f];
    }
  }

  lemma SameOutsideFatTransitive(g: Geometry, d0: Disk, d1: Disk, d2: Disk)
    requires SameOutsideFat(g, d0, d1) && SameOutsideFat(g, d1, d2)
    ensures SameOutsideFat(g, d0, d2)
  {
  }

  /** What the code finds at a sector of cluster `i` of a file. */
  lemma ChainLink(g: Geometry, d: Disk, files: seq<seq<nat>>, f: nat, i: nat, k: nat)
    requires Formatted(g, d) && Consistent(Fat(g, d), files) && f < |files| && i < |files[f]|
    requires k < g.sectorsPerCluster
    ensures var c := files[f][i];
      && ValidCluster(g, c) && c < g.Entries() && ClusterOf(g, FirstSector(g, c) + k) == c
      && FirstSector(g, c) + k != 0
      && Fat(g, d)[c] != 0 && Fat(g, d)[0] != 0 && Fat(g, d)[1] != 0
      && (i + 1 < |files[f]| ==>
            Follow(Fat(g, d)[c]) == files[f][i + 1] && ValidCluster(g, files[f][i + 1]) && !IsEoc(files[f][i + 1]))
      && (i + 1 == |files[f]| ==> IsEoc(Follow(Fat(g, d)[c])))
    ensures forall r :: ValidCluster(g, r) ==> !IsEoc(r)
  {
    var fat, chain := Fat(g, d), files[f];
    assert IsChain(fat, chain);
    NotFree(fat, chain);
    ClusterOfItsSectors(g, d, chain[i], k);
    ClusterIsInside(g, d, chain[i], k);
  }

  lemma AppendedGrows(g: Geometry, d: Disk, files: seq<seq<nat>>, f: nat, r: nat)
    requires Formatted(g, d) && Consistent(Fat(g, d), files) && f < |files| && |files[f]| > 0
    requires files[f][|files[f]| - 1] < g.Entries()
    requires 2 <= r < g.ScanLimit() <= g.Entries() && Fat(g, d)[r] == 0
    requires d[FSINFO_SECTOR][FREE_COUNT] != 0
    ensures var d', files' := Appended(g, d, files[f][|files[f]| - 1], r), files[f := files[f] + [r]];
      && Formatted(g, d') && Consistent(Fat(g, d'), files')
      && SameOutsideFat(g, d, d') && Grown(g, d, files, d', files', f)
  {
    hide Fat, Formatted, Appended, SameReservedBits, SameOutsideFat, ExactFreeCount, Disjoint, EndMark, Geometry.ScanLimit;
    var chain := files[f];
    var last := chain[|chain| - 1];
    assert IsChain(Fat(g, d), chain);
    NotFree(Fat(g, d), chain);
    assert 2 <= last < |Fat(g, d)|;
    hide IsChain;
    AppendedFrame(g, d, last, r);
    ExtendKeepsConsistent(Fat(g, d), files, f, r);
  }

  /** What the reservation leaves of FAT, FSINFO and data, chain by chain aside. */
  lemma AppendedFrame(g: Geometry, d: Disk, last: nat, r: nat)
    requires Formatted(g, d) && 2 <= last < g.Entries() && Fat(g, d)[last] != 0
    requires 2 <= r < g.ScanLimit() <= g.Entries() && Fat(g, d)[r] == 0
    requires d[FSINFO_SECTOR][FREE_COUNT] != 0
    ensures var d' := Appended(g, d, last, r);
      && Formatted(g, d') && Fat(g, d') == Linked(Fat(g, d), last, r)
      && SameReservedBits(g, d, d') && SameOutsideFat(g, d, d')
      && (ExactFreeCount(g, d) ==> ExactFreeCount(g, d'))
  {
    AppendedInfo(g, d, last, r);
    LinkedCountFree(Fat(g, d), last, r);
    CountFreeAtMost(Fat(g, d), 2, g.Entries());
    FormattedIsSmall(g, d);
    FsInfoIsInside(g, d);
    var linked := LinkedDisk(g, d, last, r);
    FsInfoChange(g, linked, Appended(g, d, last, r));
    hide Formatted, Fat, CountFree, LinkedDisk, Geometry.ScanLimit;
  }

  /** A change of FSINFO changes neither the FAT nor its reserved bits. */
  lemma FsInfoChange(g: Geometry, d: Disk, d': Disk)
    requires Formatted(g, d) && |d'| == |d| && d' == d[FSINFO_SECTOR := d'[FSINFO_SECTOR]]
    ensures Formatted(g, d') && Fat(g, d') == Fat(g, d) && SameReservedBits(g, d, d') && SameOutsideFat(g, d, d')
  {
    forall c | 0 <= c < g.Entries()
      ensures FatWord(g, d', c) == FatWord(g, d, c)
    {
      FatSectorIsInside(g, d, c);
    }
  }

  lemma FsInfoOnly(g: Geometry, d: Disk, d': Disk, files: seq<seq<nat>>, f: nat)
    requires Formatted(g, d) && Consistent(Fat(g, d), files) && f < |files|
    requires |d'| == |d| && d' == d[FSINFO_SECTOR := d'[FSINFO_SECTOR]]
    requires d[FSINFO_SECTOR][FREE_COUNT] != UNKNOWN ==> d'[FSINFO_SECTOR][FREE_COUNT] == d[FSINFO_SECTOR][FREE_COUNT]
    ensures Formatted(g, d') && Consistent(Fat(g, d'), files)
    ensures SameOutsideFat(g, d, d') && Grown(g, d, files, d', files, f)
  {
    FsInfoChange(g, d, d');
    CountFreeAtMost(Fat(g, d), 2, g.Entries());
  }

  /** What a transfer notes in the directory entry of its file. */
  datatype Note = Touch(date: int) | Stamp(nextByte: Dword, date: int, time: int)

  predicate ValidNote(note: Note) {
    0 <= note.date < 0x1_0000 && (note.Stamp? ==> 0 <= note.time < 0x1_0000)
  }

  function Updated(entry: DirEntry, note: Note): DirEntry
    requires ValidNote(note)
  {
    match note
    case Touch(date) => Accessed(entry, date)
    case Stamp(nextByte, date, time) => Stamped(entry, nextByte, date, time)
  }

  /** The directory cluster at sector `s` has an entry for `cluster`. */
  ghost predicate HasEntry(g: Geometry, d: Disk, s: nat, cluster: int) {
    s + g.sectorsPerCluster <= |d|
    && exists e: nat :: e < ENTRIES_PER_SECTOR * g.sectorsPerCluster && StandsFor(DirEntryAt(d, s, e), cluster)
  }

  /** How a write of `size` sectors from `offset` on ends, for a file of `n` clusters from `cluster`
      on: it succeeds iff the clusters there and those available hold the data and the directory
      cluster at sector `s` has an entry for the file. */
  ghost function WriteOutcome(g: Geometry, d: Disk, n: nat, base: nat, offset: nat, size: nat, s: nat, cluster: int): Status
    requires Formatted(g, d)
  {
    if base % g.sectorsPerCluster != 0 then Panic
    else if size == 0 then Success
    else if offset + size > (n + Available(g, d)) * g.sectorsPerCluster then
      if Overstated(g, d) then Panic else ClusterInvalid
    else if HasEntry(g, d, s, cluster) then Success
    else ElementNotFound
  }

  /** Which outcome it is, with what is available in words 122 and 123 of FSINFO and the bytes of the
      directory. */
  lemma WriteOutcomeIs(g: Geometry, d: Disk, n: nat, base: nat, offset: nat, size: nat, s: nat, cluster: int)
    requires Formatted(g, d) && s + g.sectorsPerCluster <= |d|
    ensures 0 < g.sectorsPerCluster
    ensures var outcome, aligned := WriteOutcome(g, d, n, base, offset, size, s, cluster), base % g.sectorsPerCluster == 0;
            var fits := offset + size <= (n + Available(g, d)) * g.sectorsPerCluster;
            var listed := exists x: nat :: x < 16 * g.sectorsPerCluster && StandsFor(DirEntryAt(d, s, x), cluster);
      && (outcome == Success <==> aligned && (size == 0 || (fits && listed)))
      && (outcome == ElementNotFound <==> aligned && size > 0 && fits && !listed)
      && (outcome == ClusterInvalid <==> aligned && size > 0 && !fits && !Overstated(g, d))
      && (outcome == Panic <==> !aligned || (size > 0 && !fits && Overstated(g, d)))
  {
    hide StandsFor, DirEntryAt, Available, Overstated;
  }

  /** How many sectors from `offset` on there is room for. */
  ghost function RoomFrom(g: Geometry, d: Disk, n: nat, offset: nat): nat
    requires Formatted(g, d)
  {
    var room := (n + Available(g, d)) * g.sectorsPerCluster;
    if offset < room then room - offset else 0
  }

  /** The first entry for `cluster` in the directory cluster at sector `s` got the note, and
      nothing else on the disk changed; or there is no such entry and nothing changed. */
  ghost predicate Noted(g: Geometry, d: Disk, s: nat, cluster: int, status: Status, e: nat, note: Note, d': Disk) {
    && ValidNote(note)
    && s + g.sectorsPerCluster <= |d|
    && (status == Success || status == ElementNotFound)
    && (status == Success ==>
          && e < ENTRIES_PER_SECTOR * g.sectorsPerCluster
          && StandsFor(DirEntryAt(d, s, e), cluster)
          && d' == PutDirEntry(d, s, e, Updated(DirEntryAt(d, s, e), note)))
    && (status != Success ==> d' == d)
    && forall x :: 0 <= x < (if status == Success then e else ENTRIES_PER_SECTOR * g.sectorsPerCluster) ==>
         !StandsFor(DirEntryAt(d, s, x), cluster)
  }

  lemma DirectoryIsInside(g: Geometry, d: Disk, files: seq<seq<nat>>, h: nat, j: nat)
    requires Formatted(g, d) && Consistent(Fat(g, d), files) && h < |files| && j < |files[h]|
    ensures 0 < g.sectorsPerCluster && 0 <= FirstSector(g, files[h][j])
    ensures FirstSector(g, files[h][j]) + g.sectorsPerCluster <= |d|
  {
    ChainLink(g, d, files, h, j, 0);
    ClusterIsInside(g, d, files[h][j], 0);
  }

  /** An entry of a directory cluster, found in a copy of the cluster. */
  lemma EntryInCluster(d: Disk, s: nat, n: nat, e: nat)
    requires s + n <= |d| && e < ENTRIES_PER_SECTOR * n
    ensures e / ENTRIES_PER_SECTOR < n
    ensures DirEntryAt(d[s..s + n], 0, e) == DirEntryAt(d, s, e)
  {
  }

  lemma EntryFound(g: Geometry, d: Disk, s: nat, cluster: int, e: nat)
    requires s + g.sectorsPerCluster <= |d| && e < ENTRIES_PER_SECTOR * g.sectorsPerCluster
    requires StandsFor(DirEntryAt(d, s, e), cluster)
    ensures HasEntry(g, d, s, cluster)
  {
  }

  lemma NoEntryFound(g: Geometry, d: Disk, s: nat, cluster: int)
    requires s + g.sectorsPerCluster <= |d|
    requires forall e :: 0 <= e < ENTRIES_PER_SECTOR * g.sectorsPerCluster ==> !StandsFor(DirEntryAt(d, s, e), cluster)
    ensures !HasEntry(g, d, s, cluster)
  {
  }

  lemma DirSectorIsData(g: Geometry, d: Disk, c: nat, e: nat)
    requires Formatted(g, d) && ValidCluster(g, c) && e < ENTRIES_PER_SECTOR * g.sectorsPerCluster
    ensures g.firstDataSector <= FirstSector(g, c) + e / ENTRIES_PER_SECTOR < |d|
    ensures ClusterOf(g, FirstSector(g, c) + e / ENTRIES_PER_SECTOR) == c
  {
    ClusterIsInside(g, d, c, e / ENTRIES_PER_SECTOR);
    ClusterOfItsSectors(g, d, c, e / ENTRIES_PER_SECTOR);
  }

  /** Writing data sectors changes nothing in the FAT or FSINFO. */
  lemma DataWriteKeepsFat(g: Geometry, d: Disk, d': Disk)
    requires Formatted(g, d) && |d'| == |d| && forall s :: 0 <= s < g.firstDataSector ==> d'[s] == d[s]
    ensures Formatted(g, d') && Fat(g, d') == Fat(g, d) && SameReservedBits(g, d, d')
    ensures FSINFO_SECTOR < |d| && d'[FSINFO_SECTOR] == d[FSINFO_SECTOR]
  {
    forall c | 0 <= c < g.Entries()
      ensures FatWord(g, d', c) == FatWord(g, d, c)
    {
      FatSectorIsInside(g, d, c);
    }
  }

  lemma DataWriteKeepsGrown(g: Geometry, d0: Disk, files0: seq<seq<nat>>, d: Disk, d': Disk, files: seq<seq<nat>>, f: nat)
    requires Grown(g, d0, files0, d, files, f)
    requires |d'| == |d| && forall s :: 0 <= s < g.firstDataSector ==> d'[s] == d[s]
    ensures Grown(g, d0, files0, d', files, f)
  {
    DataWriteKeepsFat(g, d, d');
  }

  /** `s` is none of the sectors `lo` to `hi` of the file. */
  ghost predicate Avoids(g: Geometry, chain: seq<nat>, lo: nat, hi: nat, s: int)
    requires InRange(g, chain)
  {
    forall q :: lo <= q < hi && q / g.sectorsPerCluster < |chain| ==> SectorAt(g, chain, q) != s
  }

  /** From `d0` to `d`, sectors `lo` to `hi` of the file received the data, and no other data
      sector, nor the boot region, has changed. */
  ghost predicate Written(g: Geometry, d0: Disk, d: Disk, chain: seq<nat>, lo: nat, hi: nat, data: seq<Sector>) {
    && Formatted(g, d0) && Formatted(g, d) && |d| == |d0| && InRange(g, chain)
    && lo <= hi <= lo + |data|
    && (lo < hi ==> hi <= Sectors(g, chain))
    && (forall q :: lo <= q < hi ==> SectorOfFile(g, d, chain, q) == data[q - lo])
    && (forall s :: g.firstDataSector <= s < |d| && Avoids(g, chain, lo, hi, s) ==> d[s] == d0[s])
    && (forall s :: 0 <= s < g.reservedSectors && s != FSINFO_SECTOR ==> d[s] == d0[s])
  }

  function PutSectors(d: Disk, s: nat, data: seq<Sector>): Disk
    requires s + |data| <= |d|
  {
    d[..s] + data + d[s + |data|..]
  }

  lemma PutSectorsIsLocal(g: Geometry, d: Disk, s: nat, data: seq<Sector>)
    requires Formatted(g, d) && g.firstDataSector <= s && s + |data| <= |d|
    ensures |PutSectors(d, s, data)| == |d|
    ensures forall x :: 0 <= x < g.firstDataSector ==> PutSectors(d, s, data)[x] == d[x]
  {
  }

  lemma WrittenFits(g: Geometry, d0: Disk, d: Disk, chain: seq<nat>, lo: nat, hi: nat, data: seq<Sector>)
    requires Written(g, d0, d, chain, lo, hi, data) && lo < hi
    ensures InRange(g, chain) && hi <= Sectors(g, chain)
  {
  }

  lemma NotedKeepsGrown(g: Geometry, d0: Disk, files0: seq<seq<nat>>, d: Disk, d': Disk, files: seq<seq<nat>>, f: nat)
    requires Grown(g, d0, files0, d, files, f)
    requires Formatted(g, d) && Formatted(g, d') && Fat(g, d') == Fat(g, d) && SameReservedBits(g, d, d')
    requires |d'| == |d| && FSINFO_SECTOR < |d| && d'[FSINFO_SECTOR] == d[FSINFO_SECTOR]
    ensures Grown(g, d0, files0, d', files, f)
  {
  }

  /** What was written counts from an earlier disk with the same data, too. */
  lemma WrittenSince(g: Geometry, d0: Disk, d1: Disk, d: Disk, chain: seq<nat>, lo: nat, hi: nat, data: seq<Sector>)
    requires Formatted(g, d0) && SameOutsideFat(g, d0, d1) && Written(g, d1, d, chain, lo, hi, data)
    ensures Written(g, d0, d, chain, lo, hi, data)
  {
  }

  /** Nothing written yet. */
  lemma WrittenNothing(g: Geometry, d0: Disk, d: Disk, files: seq<seq<nat>>, f: nat, lo: nat, data: seq<Sector>)
    requires Formatted(g, d0) && Formatted(g, d) && Consistent(Fat(g, d), files) && f < |files|
    requires SameOutsideFat(g, d0, d)
    ensures Written(g, d0, d, files[f], lo, lo, data)
  {
    assert IsChain(Fat(g, d), files[f]);
  }

  /** One more chunk of data, to where the next sectors of the file are. */
  lemma WrittenChunk(g: Geometry, d0: Disk, d: Disk, files: seq<seq<nat>>, f: nat, lo: nat, hi: nat, data: seq<Sector>,
                     i: nat, k: nat, s: int, chunk: nat)
    requires f < |files| && Written(g, d0, d, files[f], lo, hi, data) && Consistent(Fat(g, d), files)
    requires Positioned(g, files[f], i, k, hi, s) && 0 < chunk && k + chunk <= g.sectorsPerCluster
    requires hi + chunk <= lo + |data|
    ensures i < |files[f]| && s == FirstSector(g, files[f][i]) + k
    ensures g.firstDataSector <= s && s + chunk <= |d|
    ensures Written(g, d0, PutSectors(d, s, data[hi - lo..hi - lo + chunk]), files[f], lo, hi + chunk, data)
  {
    var chain := files[f];
    assert IsChain(Fat(g, d), chain);
    ChunkIsRun(g, d, files, f, i, k, hi, s, chunk);
    var d' := PutSectors(d, s, data[hi - lo..hi - lo + chunk]);
    forall q | lo <= q < hi + chunk
      ensures SectorOfFile(g, d', chain, q) == data[q - lo]
    {
      WrittenSector(g, d, d', chain, i, k, hi, s, chunk, q);
    }
    forall x | g.firstDataSector <= x < |d| && Avoids(g, chain, lo, hi + chunk, x)
      ensures d'[x] == d0[x]
    {
      if s <= x < s + chunk {
        RunIsNotAvoided(g, chain, lo, i, k, hi, s, chunk, x);
      }
      assert Avoids(g, chain, lo, hi, x);
    }
  }

  lemma RunIsNotAvoided(g: Geometry, chain: seq<nat>, lo: nat, i: nat, k: nat, hi: nat, s: int, chunk: nat, x: int)
    requires InRange(g, chain) && Positioned(g, chain, i, k, hi, s) && k + chunk <= g.sectorsPerCluster
    requires lo <= hi && s <= x < s + chunk
    ensures !Avoids(g, chain, lo, hi + chunk, x)
  {
    SectorAtCluster(g, chain, i, k + x - s);
    var q := hi + x - s;
    assert lo <= q < hi + chunk && SectorAt(g, chain, q) == x;
  }

  lemma WrittenSector(g: Geometry, d: Disk, d': Disk, chain: seq<nat>, i: nat, k: nat, hi: nat, s: int, chunk: nat, q: nat)
    requires Formatted(g, d) && |d'| == |d| && InRange(g, chain) && Distinct(chain)
    requires Positioned(g, chain, i, k, hi, s) && k + chunk <= g.sectorsPerCluster && hi + chunk <= Sectors(g, chain)
    requires q < hi + chunk && g.firstDataSector <= s && s + chunk <= |d|
    requires forall x :: 0 <= x < |d| && !(s <= x < s + chunk) ==> d'[x] == d[x]
    ensures Formatted(g, d')
    ensures SectorOfFile(g, d', chain, q) == if q < hi then SectorOfFile(g, d, chain, q) else d'[s + q - hi]
  {
    PositionInChain(g, chain, q);
    SectorAtIsInside(g, d, chain, q);
    if q >= hi {
      SectorAtCluster(g, chain, i, k + q - hi);
    } else if s <= SectorAt(g, chain, q) < s + chunk {
      var t := SectorAt(g, chain, q) - s;
      SectorAtCluster(g, chain, i, k + t);
      SectorAtInjective(g, d, chain, q, hi + t);
      assert false;
    }
  }

  /** A chain that grew at its end, and writes to the FAT, leave what was written in place. */
  lemma WrittenGrows(g: Geometry, d0: Disk, d: Disk, d': Disk, files: seq<seq<nat>>, files': seq<seq<nat>>, f: nat,
                     lo: nat, hi: nat, data: seq<Sector>)
    requires f < |files| && f < |files'|
    requires Written(g, d0, d, files[f], lo, hi, data) && SameOutsideFat(g, d, d')
    requires Formatted(g, d') && Consistent(Fat(g, d'), files') && files[f] <= files'[f]
    ensures Written(g, d0, d', files'[f], lo, hi, data)
  {
    var chain, chain' := files[f], files'[f];
    assert IsChain(Fat(g, d'), chain');
    MulMonotone(|chain|, |chain'|, g.sectorsPerCluster);
    forall q | lo <= q < hi
      ensures SectorOfFile(g, d', chain', q) == data[q - lo]
    {
      PrefixKeepsPosition(g, d, d', chain, chain', q);
      assert SectorOfFile(g, d, chain, q) == data[q - lo];
    }
    forall s | g.firstDataSector <= s < |d'| && Avoids(g, chain', lo, hi, s)
      ensures d'[s] == d0[s]
    {
      AvoidsPrefix(g, chain, chain', lo, hi, s);
    }
  }

  lemma AvoidsPrefix(g: Geometry, chain: seq<nat>, chain': seq<nat>, lo: nat, hi: nat, s: int)
    requires InRange(g, chain) && InRange(g, chain') && chain <= chain' && Avoids(g, chain', lo, hi, s)
    ensures Avoids(g, chain, lo, hi, s)
  {
    forall q | lo <= q < hi && q / g.sectorsPerCluster < |chain|
      ensures SectorAt(g, chain, q) != s
    {
      assert SectorAt(g, chain', q) != s;
      assert chain'[q / g.sectorsPerCluster] == chain[q / g.sectorsPerCluster];
    }
  }

  lemma PrefixKeepsPosition(g: Geometry, d: Disk, d': Disk, chain: seq<nat>, chain': seq<nat>, q: nat)
    requires Formatted(g, d) && Formatted(g, d') && InRange(g, chain) && InRange(g, chain') && chain <= chain'
    requires q < Sectors(g, chain) && q < Sectors(g, chain') && SameOutsideFat(g, d, d')
    ensures SectorOfFile(g, d', chain', q) == SectorOfFile(g, d, chain, q)
  {
    PositionInChain(g, chain, q);
    SectorAtIsInside(g, d, chain, q);
  }

  /** Sector `k` of cluster `i` is position `p` of the file, at disk sector `s`. */
  predicate Positioned(g: Geometry, chain: seq<nat>, i: nat, k: nat, p: nat, s: int) {
    && i < |chain| && k < g.sectorsPerCluster
    && p == i * g.sectorsPerCluster + k && s == FirstSector(g, chain[i]) + k
  }

  lemma StartPosition(g: Geometry, chain: seq<nat>, i: nat, p: nat)
    requires i < |chain| && i * g.sectorsPerCluster <= p < i * g.sectorsPerCluster + g.sectorsPerCluster
    ensures Positioned(g, chain, i, p % g.sectorsPerCluster, p, FirstSector(g, chain[i]) + p % g.sectorsPerCluster)
  {
    DivUnique(p, g.sectorsPerCluster, i, p - i * g.sectorsPerCluster);
  }

  /** Where the transfer stands, and that a run of sectors inside one cluster is a run of the file. */
  lemma ChunkIsRun(g: Geometry, d: Disk, files: seq<seq<nat>>, f: nat, i: nat, k: nat, p: nat, s: int, chunk: nat)
    requires Formatted(g, d) && Consistent(Fat(g, d), files) && f < |files|
    requires Positioned(g, files[f], i, k, p, s) && 0 < chunk && k + chunk <= g.sectorsPerCluster
    ensures i < |files[f]| && k < g.sectorsPerCluster && s == FirstSector(g, files[f][i]) + k && s != 0
    ensures InRange(g, files[f]) && p + chunk <= Sectors(g, files[f])
    ensures g.firstDataSector <= s && s + chunk <= |d|
    ensures forall q :: p <= q < p + chunk ==> SectorOfFile(g, d, files[f], q) == d[s + q - p]
  {
    var chain, spc := files[f], g.sectorsPerCluster;
    assert IsChain(Fat(g, d), chain);
    RunIsInside(g, d, chain, i, k, chunk);
    forall q | p <= q < p + chunk
      ensures SectorOfFile(g, d, chain, q) == d[s + q - p]
    {
      SectorAtCluster(g, chain, i, k + q - p);
    }
  }

  lemma RunIsInside(g: Geometry, d: Disk, chain: seq<nat>, i: nat, k: nat, chunk: nat)
    requires Formatted(g, d) && InRange(g, chain) && i < |chain| && k + chunk <= g.sectorsPerCluster && 0 < chunk
    ensures i * g.sectorsPerCluster + k + chunk <= Sectors(g, chain)
    ensures g.firstDataSector <= FirstSector(g, chain[i]) + k
    ensures FirstSector(g, chain[i]) + k + chunk <= |d|
  {
    var spc := g.sectorsPerCluster;
    MulMonotone(i + 1, |chain|, spc);
    assert (i + 1) * spc == i * spc + spc;
    ClusterIsInside(g, d, chain[i], k);
  }

  /** Behind a run to the end of its cluster the file goes on with its next cluster, or ends. */
  lemma ChunkToNext(g: Geometry, d: Disk, files: seq<seq<nat>>, f: nat, i: nat, k: nat, p: nat, s: int, chunk: nat)
    requires Formatted(g, d) && Consistent(Fat(g, d), files) && f < |files|
    requires Positioned(g, files[f], i, k, p, s) && k + chunk == g.sectorsPerCluster
    ensures i + 1 < |files[f]| ==>
      && FirstSector(g, files[f][i + 1]) != 0
      && Positioned(g, files[f], i + 1, 0, p + chunk, FirstSector(g, files[f][i + 1]))
    ensures i + 1 == |files[f]| ==> p + chunk == Sectors(g, files[f])
  {
    var spc := g.sectorsPerCluster;
    assert (i + 1) * spc == i * spc + spc;
    if i + 1 < |files[f]| {
      ChainLink(g, d, files, f, i + 1, 0);
    }
  }

  lemma GrownPrefix(g: Geometry, d0: Disk, files0: seq<seq<nat>>, d: Disk, files: seq<seq<nat>>, f: nat)
    requires Grown(g, d0, files0, d, files, f)
    ensures f < |files0| && f < |files| && files0[f] <= files[f]
  {
  }

  /** The next position after a run to the end of a cluster, in a chain that was extended if it
      had to be; an extended chain ends with the cluster that starts there. */
  lemma ExtendedPosition(g: Geometry, d: Disk, files0: seq<seq<nat>>, files: seq<seq<nat>>, f: nat,
                         i: nat, k: nat, p: nat, s: int, chunk: nat)
    requires Formatted(g, d) && Consistent(Fat(g, d), files) && f < |files0| && f < |files|
    requires files0[f] <= files[f] && i + 1 < |files[f]|
    requires Positioned(g, files0[f], i, k, p, s) && k + chunk == g.sectorsPerCluster
    ensures Positioned(g, files[f], i + 1, 0, p + chunk, FirstSector(g, files[f][i + 1]))
    ensures |files[f]| == i + 2 ==> Sectors(g, files[f]) == p + chunk + g.sectorsPerCluster
  {
    ChunkToNext(g, d, files, f, i, k, p, s, chunk);
    assert (i + 2) * g.sectorsPerCluster == (i + 1) * g.sectorsPerCluster + g.sectorsPerCluster;
  }

  /** Sectors that are written lie within the clusters of the file. */
  lemma StoredWithinReach(g: Geometry, d0: Disk, d: Disk, chain: seq<nat>, lo: nat, hi: nat, data: seq<Sector>, reach: nat)
    requires Written(g, d0, d, chain, lo, hi, data) && lo < hi && |chain| <= reach
    ensures hi <= reach * g.sectorsPerCluster
  {
    MulMonotone(|chain|, reach, g.sectorsPerCluster);
  }

  /** A run to the end of the last cluster within reach leaves nothing beyond it in reach. */
  lemma EndOutOfReach(g: Geometry, chain: seq<nat>, i: nat, k: nat, p: nat, s: int, chunk: nat, reach: nat)
    requires Positioned(g, chain, i, k, p, s) && k + chunk == g.sectorsPerCluster && reach <= i + 1
    ensures reach * g.sectorsPerCluster <= p + chunk
  {
    MulMonotone(reach, i + 1, g.sectorsPerCluster);
    assert (i + 1) * g.sectorsPerCluster == i * g.sectorsPerCluster + g.sectorsPerCluster;
  }

  /** How following a chain of `n` clusters to a sector offset ends: there, or at the ASSERT
      that the end of the chain was not passed, or with the failure of going on from sector 0. */
  function EndOfTraversal(g: Geometry, n: nat, sectorOffset: nat): Status
    requires g.sectorsPerCluster > 0
  {
    var i := sectorOffset / g.sectorsPerCluster;
    if i < n then Success else if i == n then Panic else ClusterInvalid
  }

  /** The same by the number of sectors. */
  lemma EndOfTraversalIs(g: Geometry, n: nat, sectorOffset: nat)
    requires g.sectorsPerCluster > 0
    ensures EndOfTraversal(g, n, sectorOffset) ==
            if sectorOffset < n * g.sectorsPerCluster then Success
            else if sectorOffset < (n + 1) * g.sectorsPerCluster then Panic else ClusterInvalid
  {
    DivBelow(sectorOffset, g.sectorsPerCluster, n);
    DivBelow(sectorOffset, g.sectorsPerCluster, n + 1);
  }

  /** Arithmetic of a sector offset against cluster `i` of a file. */
  lemma OffsetInCluster(g: Geometry, d: Disk, files: seq<seq<nat>>, f: nat, i: nat, sectorOffset: nat)
    requires Formatted(g, d) && Consistent(Fat(g, d), files) && f < |files|
    ensures 0 < g.sectorsPerCluster
    ensures (i + 1) * g.sectorsPerCluster == i * g.sectorsPerCluster + g.sectorsPerCluster
    ensures i * g.sectorsPerCluster <= sectorOffset <==> i <= sectorOffset / g.sectorsPerCluster
    ensures sectorOffset < i * g.sectorsPerCluster + g.sectorsPerCluster <==> sectorOffset / g.sectorsPerCluster <= i
    ensures i < |files[f]| ==> FirstSector(g, files[f][i]) != 0
  {
    DivBelow(sectorOffset, g.sectorsPerCluster, i);
    DivBelow(sectorOffset, g.sectorsPerCluster, i + 1);
    if i < |files[f]| {
      ChainLink(g, d, files, f, i, 0);
    }
  }

  // ---------------------------------------------------------------- what the two transfers guarantee

  /** The positions a traversal of the chain can end at. */
  lemma TraversalEnds(g: Geometry, d: Disk, files: seq<seq<nat>>, f: nat, sectorOffset: nat)
    requires Formatted(g, d) && Consistent(Fat(g, d), files) && f < |files|
    ensures 0 < g.sectorsPerCluster && InRange(g, files[f])
    ensures EndOfTraversal(g, |files[f]|, sectorOffset) == Success <==> sectorOffset < Sectors(g, files[f])
    ensures |files[f]| > 0 && ClusterOf(g, FirstSector(g, files[f][0])) == files[f][0]
    ensures ValidCluster(g, files[f][0])
  {
    assert IsChain(Fat(g, d), files[f]);
    PositionInChain(g, files[f], sectorOffset);
    ClusterOfItsSectors(g, d, files[f][0], 0);
    assert FirstSector(g, files[f][0]) + 0 == FirstSector(g, files[f][0]);
  }

  /** A write to one file leaves every sector of every other file as it was. */
  lemma WrittenKeepsOtherFiles(g: Geometry, d0: Disk, d: Disk, files: seq<seq<nat>>, f: nat, lo: nat, hi: nat,
                               data: seq<Sector>, x: nat, q: nat)
    requires f < |files| && x < |files| && x != f && Written(g, d0, d, files[f], lo, hi, data)
    requires Consistent(Fat(g, d), files) && q < Sectors(g, files[x])
    ensures InRange(g, files[x])
    ensures SectorOfFile(g, d, files[x], q) == SectorOfFile(g, d0, files[x], q)
  {
    assert IsChain(Fat(g, d), files[x]) && Disjoint(files[x], files[f]);
    PositionInChain(g, files[x], q);
    SectorAtIsInside(g, d, files[x], q);
    var s := SectorAt(g, files[x], q);
    forall p | lo <= p < hi && p / g.sectorsPerCluster < |files[f]|
      ensures SectorAt(g, files[f], p) != s
    {
      DisjointFilesApart(g, d, files[x], files[f], q, p);
    }
    assert Avoids(g, files[f], lo, hi, s);
  }

  /** And of its own sectors only those in the written range change. */
  lemma WrittenKeepsRestOfFile(g: Geometry, d0: Disk, d: Disk, files: seq<seq<nat>>, f: nat, lo: nat, hi: nat,
                               data: seq<Sector>, q: nat)
    requires f < |files| && Written(g, d0, d, files[f], lo, hi, data)
    requires Consistent(Fat(g, d), files) && q < Sectors(g, files[f])
    ensures SectorOfFile(g, d, files[f], q) == if lo <= q < hi then data[q - lo] else SectorOfFile(g, d0, files[f], q)
  {
    assert IsChain(Fat(g, d), files[f]);
    PositionInChain(g, files[f], q);
    SectorAtIsInside(g, d, files[f], q);
    if !(lo <= q < hi) {
      forall p | lo <= p < hi && p / g.sectorsPerCluster < |files[f]|
        ensures SectorAt(g, files[f], p) != SectorAt(g, files[f], q)
      {
        if SectorAt(g, files[f], p) == SectorAt(g, files[f], q) {
          SectorAtInjective(g, d, files[f], p, q);
        }
      }
      assert Avoids(g, files[f], lo, hi, SectorAt(g, files[f], q));
    }
  }

  lemma OtherClusterApart(g: Geometry, d: Disk, chain: seq<nat>, q: nat, s: int)
    requires Formatted(g, d) && InRange(g, chain) && q < Sectors(g, chain)
    requires forall i :: 0 <= i < |chain| ==> chain[i] != ClusterOf(g, s)
    ensures q / g.sectorsPerCluster < |chain| && SectorAt(g, chain, q) != s
    ensures 0 <= SectorAt(g, chain, q) < |d|
  {
    hide Formatted, SectorAt, ClusterOf, FirstSector;
    PositionInChain(g, chain, q);
    SectorAtIsInside(g, d, chain, q);
  }

  /** The note in a directory cluster changes no sector of a file that does not own the cluster. */
  lemma NoteKeepsFile(g: Geometry, d: Disk, files: seq<seq<nat>>, f: nat, h: nat, j: nat, cluster: int,
                      status: Status, e: nat, note: Note, d': Disk, q: nat)
    requires Formatted(g, d) && Consistent(Fat(g, d), files) && f < |files| && h < |files| && f != h && j < |files[h]|
    requires FirstSector(g, files[h][j]) >= 0
    requires Noted(g, d, FirstSector(g, files[h][j]), cluster, status, e, note, d')
    requires q < Sectors(g, files[f])
    ensures Formatted(g, d') && InRange(g, files[f])
    ensures SectorOfFile(g, d', files[f], q) == SectorOfFile(g, d, files[f], q)
  {
    hide DirEntryAt, StandsFor, PutInSector, Updated, FirstSector, ClusterOf, SectorAt;
    var chain := files[f];
    assert IsChain(Fat(g, d), chain) && IsChain(Fat(g, d), files[h]) && Disjoint(chain, files[h]);
    if status == Success {
      DirSectorIsData(g, d, files[h][j], e);
      OtherClusterApart(g, d, chain, q, FirstSector(g, files[h][j]) + e / ENTRIES_PER_SECTOR);
      DataWriteKeepsFat(g, d, d');
    }
  }

  /** After a write has noted itself, the same entry is still the first one for its file. */
  lemma NoteKeepsEntry(g: Geometry, d: Disk, s: nat, cluster: int, e: nat, note: Note, d': Disk)
    requires g.sectorsPerCluster > 0 && Noted(g, d, s, cluster, Success, e, note, d')
    ensures |d'| == |d| && s + e / ENTRIES_PER_SECTOR < |d| && StandsFor(DirEntryAt(d', s, e), cluster)
    ensures forall x :: 0 <= x < e ==> !StandsFor(DirEntryAt(d', s, x), cluster)
  {
    hide StandsFor, DirEntryAt, PutInSector, Accessed, Stamped;
    var entry := DirEntryAt(d, s, e);
    match note {
      case Touch(date) => UpdatesKeepMatch(entry, 0, date, 0, cluster);
      case Stamp(nextByte, date, time) => UpdatesKeepMatch(entry, nextByte, date, time, cluster);
    }
    PutDirEntryKeepsOthers(d, s, e, Updated(entry, note), s, e);
    forall x | 0 <= x < e
      ensures !StandsFor(DirEntryAt(d', s, x), cluster)
    {
      assert !StandsFor(DirEntryAt(d, s, x), cluster);
      PutDirEntryKeepsOthers(d, s, e, Updated(entry, note), s, x);
    }
  }

  /** The note in a directory cluster changes only one sector of the directory. */
  lemma NoteKeepsDirectory(g: Geometry, d: Disk, files: seq<seq<nat>>, h: nat, j: nat, cluster: int,
                           e: nat, note: Note, d': Disk, q: nat)
    requires Formatted(g, d) && Consistent(Fat(g, d), files) && h < |files| && j < |files[h]|
    requires FirstSector(g, files[h][j]) >= 0
    requires Noted(g, d, FirstSector(g, files[h][j]), cluster, Success, e, note, d')
    requires q < Sectors(g, files[h]) && q != j * g.sectorsPerCluster + e / ENTRIES_PER_SECTOR
    ensures Formatted(g, d') && InRange(g, files[h])
    ensures SectorOfFile(g, d', files[h], q) == SectorOfFile(g, d, files[h], q)
  {
    hide DirEntryAt, StandsFor, PutInSector, Updated, FirstSector, ClusterOf, SectorAt;
    var chain, k := files[h], e / ENTRIES_PER_SECTOR;
    assert IsChain(Fat(g, d), chain);
    DirSectorIsData(g, d, chain[j], e);
    DataWriteKeepsFat(g, d, d');
    SectorAtCluster(g, chain, j, k);
    PositionInChain(g, chain, q);
    SectorAtIsInside(g, d, chain, q);
    if SectorAt(g, chain, q) == FirstSector(g, chain[j]) + k {
      SectorAtInjective(g, d, chain, q, j * g.sectorsPerCluster + k);
      assert false;
    }
  }

  /** A write to another file leaves every entry of a directory. */
  lemma WrittenKeepsEntries(g: Geometry, d0: Disk, d: Disk, files: seq<seq<nat>>, f: nat, h: nat, j: nat,
                            lo: nat, hi: nat, data: seq<Sector>, e: nat)
    requires f < |files| && h < |files| && f != h && j < |files[h]| && Written(g, d0, d, files[f], lo, hi, data)
    requires Consistent(Fat(g, d), files) && e < ENTRIES_PER_SECTOR * g.sectorsPerCluster
    ensures 0 <= FirstSector(g, files[h][j]) && FirstSector(g, files[h][j]) + g.sectorsPerCluster <= |d| == |d0|
    ensures DirEntryAt(d, FirstSector(g, files[h][j]), e) == DirEntryAt(d0, FirstSector(g, files[h][j]), e)
  {
    hide Written, FirstSector, SectorAt, Fat, Distinct;
    var chain, k := files[h], e / ENTRIES_PER_SECTOR;
    var q := j * g.sectorsPerCluster + k;
    WrittenOn(g, d0, d, files[f], lo, hi, data);
    assert IsChain(Fat(g, d), chain);
    ClusterIsInside(g, d, chain[j], k);
    ClusterIsInside(g, d, chain[j], 0);
    SectorAtCluster(g, chain, j, k);
    PositionInChain(g, chain, q);
    WrittenKeepsOtherFiles(g, d0, d, files, f, lo, hi, data, h, q);
  }

  lemma WrittenOn(g: Geometry, d0: Disk, d: Disk, chain: seq<nat>, lo: nat, hi: nat, data: seq<Sector>)
    requires Written(g, d0, d, chain, lo, hi, data)
    ensures Formatted(g, d0) && Formatted(g, d) && |d| == |d0|
  {
  }

  /** The sectors after a write of the data to sector `lo` on of file `f`, when entry `e` of the
      directory's cluster `j` got the note. */
  ghost predicate FilesAfter(g: Geometry, d0: Disk, d: Disk, files: seq<seq<nat>>, f: nat, h: nat, j: nat,
                             lo: nat, data: seq<Sector>, e: nat) {
    && Formatted(g, d0) && Formatted(g, d) && |d| == |d0| && f < |files|
    && (forall x :: 0 <= x < |files| ==> InRange(g, files[x]))
    // the file's: the data in the written range, the others as they were
    && lo + |data| <= Sectors(g, files[f])
    && (forall q :: 0 <= q < Sectors(g, files[f]) ==>
          SectorOfFile(g, d, files[f], q) ==
            if lo <= q < lo + |data| then data[q - lo] else SectorOfFile(g, d0, files[f], q))
    // every other file's, and the directory's but for the sector of the entry
    && (forall x, q :: 0 <= x < |files| && x != f && 0 <= q < Sectors(g, files[x])
                       && !(x == h && q == j * g.sectorsPerCluster + e / ENTRIES_PER_SECTOR) ==>
          SectorOfFile(g, d, files[x], q) == SectorOfFile(g, d0, files[x], q))
    // the boot region
    && (forall s :: 0 <= s < g.reservedSectors && s != FSINFO_SECTOR ==> d[s] == d0[s])
  }

  /** The entries of the directory cluster at sector `s`: the first one for `cluster` has the note
      and still is the first one, all others are as they were. */
  ghost predicate EntriesAfter(g: Geometry, d0: Disk, d: Disk, s: nat, cluster: int, e: nat, note: Note) {
    && ValidNote(note) && |d| == |d0| && s + g.sectorsPerCluster <= |d|
    && e < ENTRIES_PER_SECTOR * g.sectorsPerCluster
    && StandsFor(DirEntryAt(d0, s, e), cluster) && StandsFor(DirEntryAt(d, s, e), cluster)
    && (forall x :: 0 <= x < e ==>
          !StandsFor(DirEntryAt(d0, s, x), cluster) && !StandsFor(DirEntryAt(d, s, x), cluster))
    && (forall x :: 0 <= x < ENTRIES_PER_SECTOR * g.sectorsPerCluster ==>
          DirEntryAt(d, s, x) == if x == e then Updated(DirEntryAt(d0, s, e), note) else DirEntryAt(d0, s, x))
  }

  /** What a successful write makes of disk `d0`, besides the FAT and FSINFO. */
  ghost predicate WriteEffect(g: Geometry, d0: Disk, d: Disk, files: seq<seq<nat>>, f: nat, h: nat, j: nat,
                              lo: nat, data: seq<Sector>, e: nat, note: Note) {
    && f < |files| && files[f] != [] && h < |files| && j < |files[h]| && FirstSector(g, files[h][j]) >= 0
    && FilesAfter(g, d0, d, files, f, h, j, lo, data, e)
    && EntriesAfter(g, d0, d, FirstSector(g, files[h][j]), files[f][0], e, note)
  }

  lemma NoteAndFiles(g: Geometry, d0: Disk, stored: Disk, d: Disk, files: seq<seq<nat>>, f: nat, h: nat, j: nat,
                     lo: nat, data: seq<Sector>, e: nat, note: Note)
    requires f < |files| && h < |files| && f != h && j < |files[h]| && files[f] != [] && data != []
    requires Written(g, d0, stored, files[f], lo, lo + |data|, data)
    requires Consistent(Fat(g, stored), files) && FirstSector(g, files[h][j]) >= 0
    requires Noted(g, stored, FirstSector(g, files[h][j]), files[f][0], Success, e, note, d)
    ensures FilesAfter(g, d0, d, files, f, h, j, lo, data, e)
  {
    hide Formatted, Fat, IsChain, Consistent, Disjoint, Noted, Written, FirstSector, SectorOfFile, Sectors, InRange;
    WrittenOn(g, d0, stored, files[f], lo, lo + |data|, data);
    WrittenFits(g, d0, stored, files[f], lo, lo + |data|, data);
    FilesInRange(g, stored, files);
    NotedFrame(g, d0, stored, d, files, f, h, j, lo, data, e, note);
    forall q: nat | q < Sectors(g, files[f])
      ensures SectorOfFile(g, d, files[f], q) ==
              if lo <= q < lo + |data| then data[q - lo] else SectorOfFile(g, d0, files[f], q)
    {
      NoteKeepsFile(g, stored, files, f, h, j, files[f][0], Success, e, note, d, q);
      WrittenKeepsRestOfFile(g, d0, stored, files, f, lo, lo + |data|, data, q);
    }
    forall x: nat, q: nat | x < |files| && x != f && q < Sectors(g, files[x])
                            && !(x == h && q == j * g.sectorsPerCluster + e / ENTRIES_PER_SECTOR)
      ensures SectorOfFile(g, d, files[x], q) == SectorOfFile(g, d0, files[x], q)
    {
      if x == h {
        NoteKeepsDirectory(g, stored, files, h, j, files[f][0], e, note, d, q);
      } else {
        NoteKeepsFile(g, stored, files, x, h, j, files[f][0], Success, e, note, d, q);
      }
      WrittenKeepsOtherFiles(g, d0, stored, files, f, lo, lo + |data|, data, x, q);
    }
  }

  lemma FilesInRange(g: Geometry, d: Disk, files: seq<seq<nat>>)
    requires Formatted(g, d) && Consistent(Fat(g, d), files)
    ensures forall x :: 0 <= x < |files| ==> InRange(g, files[x])
  {
    forall x | 0 <= x < |files|
      ensures InRange(g, files[x])
    {
      assert IsChain(Fat(g, d), files[x]);
    }
  }

  lemma NotedFrame(g: Geometry, d0: Disk, stored: Disk, d: Disk, files: seq<seq<nat>>, f: nat, h: nat, j: nat,
                   lo: nat, data: seq<Sector>, e: nat, note: Note)
    requires f < |files| && h < |files| && j < |files[h]| && files[f] != []
    requires Written(g, d0, stored, files[f], lo, lo + |data|, data)
    requires Consistent(Fat(g, stored), files) && FirstSector(g, files[h][j]) >= 0
    requires Noted(g, stored, FirstSector(g, files[h][j]), files[f][0], Success, e, note, d)
    ensures Formatted(g, d) && |d| == |d0|
    ensures forall s :: 0 <= s < g.reservedSectors && s != FSINFO_SECTOR ==> s < |d| && d[s] == d0[s]
  {
    hide DirEntryAt, StandsFor, PutInSector, Updated, FirstSector, SectorOfFile;
    assert IsChain(Fat(g, stored), files[h]);
    DirSectorIsData(g, stored, files[h][j], e);
    DataWriteKeepsFat(g, stored, d);
  }

  lemma NoteAndEntries(g: Geometry, d0: Disk, stored: Disk, d: Disk, files: seq<seq<nat>>, f: nat, h: nat, j: nat,
                       lo: nat, data: seq<Sector>, e: nat, note: Note)
    requires f < |files| && h < |files| && f != h && j < |files[h]| && files[f] != []
    requires Written(g, d0, stored, files[f], lo, lo + |data|, data)
    requires Consistent(Fat(g, stored), files) && FirstSector(g, files[h][j]) >= 0
    requires Noted(g, stored, FirstSector(g, files[h][j]), files[f][0], Success, e, note, d)
    ensures EntriesAfter(g, d0, d, FirstSector(g, files[h][j]), files[f][0], e, note)
  {
    hide Formatted, Fat, IsChain, Consistent, Written, FirstSector, StandsFor, DirEntryAt, PutInSector, Updated, PutDirEntry;
    var s := FirstSector(g, files[h][j]);
    NoteKeepsEntry(g, stored, s, files[f][0], e, note, d);
    WrittenKeepsEntries(g, d0, stored, files, f, h, j, lo, lo + |data|, data, e);
    forall x: nat | x < ENTRIES_PER_SECTOR * g.sectorsPerCluster
      ensures DirEntryAt(stored, s, x) == DirEntryAt(d0, s, x)
      ensures DirEntryAt(d, s, x) == if x == e then Updated(DirEntryAt(stored, s, e), note) else DirEntryAt(stored, s, x)
    {
      WrittenKeepsEntries(g, d0, stored, files, f, h, j, lo, lo + |data|, data, x);
      PutDirEntryKeepsOthers(stored, s, e, Updated(DirEntryAt(stored, s, e), note), s, x);
    }
  }

  /** The note finds its entry iff there was one before the write. */
  lemma NotedIffEntry(g: Geometry, d0: Disk, stored: Disk, d: Disk, files: seq<seq<nat>>, f: nat, h: nat, j: nat,
                      lo: nat, data: seq<Sector>, status: Status, e: nat, note: Note)
    requires f < |files| && h < |files| && f != h && j < |files[h]| && files[f] != []
    requires Written(g, d0, stored, files[f], lo, lo + |data|, data)
    requires Consistent(Fat(g, stored), files) && FirstSector(g, files[h][j]) >= 0
    requires Noted(g, stored, FirstSector(g, files[h][j]), files[f][0], status, e, note, d)
    ensures status == if HasEntry(g, d0, FirstSector(g, files[h][j]), files[f][0]) then Success else ElementNotFound
  {
    hide Formatted, Fat, IsChain, Consistent, Written, FirstSector, StandsFor, DirEntryAt, Updated, PutDirEntry;
    WrittenOn(g, d0, stored, files[f], lo, lo + |data|, data);
    forall x: nat | x < ENTRIES_PER_SECTOR * g.sectorsPerCluster
      ensures DirEntryAt(stored, FirstSector(g, files[h][j]), x) == DirEntryAt(d0, FirstSector(g, files[h][j]), x)
    {
      WrittenKeepsEntries(g, d0, stored, files, f, h, j, lo, lo + |data|, data, x);
    }
  }

  /** A write and its note in the directory together. */
  lemma WrittenAndNoted(g: Geometry, d0: Disk, stored: Disk, d: Disk, files: seq<seq<nat>>, f: nat, h: nat, j: nat,
                        lo: nat, data: seq<Sector>, status: Status, e: nat, note: Note)
    requires f < |files| && h < |files| && f != h && j < |files[h]| && files[f] != [] && data != []
    requires Written(g, d0, stored, files[f], lo, lo + |data|, data)
    requires Consistent(Fat(g, stored), files) && FirstSector(g, files[h][j]) >= 0
    requires Noted(g, stored, FirstSector(g, files[h][j]), files[f][0], status, e, note, d)
    ensures status == if HasEntry(g, d0, FirstSector(g, files[h][j]), files[f][0]) then Success else ElementNotFound
    ensures status == Success ==> WriteEffect(g, d0, d, files, f, h, j, lo, data, e, note)
    ensures status != Success ==> d == stored
  {
    hide Formatted, Fat, IsChain, Consistent, Written, FirstSector, FilesAfter, EntriesAfter, StandsFor, DirEntryAt,
         Updated, PutDirEntry;
    NotedIffEntry(g, d0, stored, d, files, f, h, j, lo, data, status, e, note);
    if status == Success {
      NoteAndFiles(g, d0, stored, d, files, f, h, j, lo, data, e, note);
      NoteAndEntries(g, d0, stored, d, files, f, h, j, lo, data, e, note);
    }
  }

  lemma OtherFilesStay(g: Geometry, d0: Disk, files0: seq<seq<nat>>, d: Disk, files: seq<seq<nat>>, f: nat, h: nat)
    requires Grown(g, d0, files0, d, files, f) && h < |files0| && h != f
    ensures h < |files| && files[h] == files0[h]
  {
  }

  /** What a successful write stored, a read of the same range returns, and its note succeeds. */
  lemma ReadBack(g: Geometry, d0: Disk, d: Disk, files: seq<seq<nat>>, f: nat, h: nat, j: nat,
                 lo: nat, data: seq<Sector>, e: nat, note: Note, status: Status, e': nat, note': Note, d': Disk)
    requires WriteEffect(g, d0, d, files, f, h, j, lo, data, e, note) && FirstSector(g, files[h][j]) >= 0
    requires Noted(g, d, FirstSector(g, files[h][j]), files[f][0], status, e', note', d')
    ensures Formatted(g, d) && InRange(g, files[f]) && lo + |data| <= Sectors(g, files[f])
    ensures forall t :: 0 <= t < |data| ==> SectorOfFile(g, d, files[f], lo + t) == data[t]
    ensures status == Success && e' == e
  {
    hide Formatted, SectorOfFile, DirEntryAt, StandsFor, FirstSector, Sectors, Updated, PutDirEntry;
  }

  /** What a read leaves in the directory, byte by byte. */
  lemma ReadNote(g: Geometry, d: Disk, s: nat, cluster: int, status: Status, e: nat, date: int, d': Disk)
    requires Noted(g, d, s, cluster, status, e, Touch(date), d')
    ensures s + g.sectorsPerCluster <= |d| && |d'| == |d|
    ensures status == if exists x: nat :: x < 16 * g.sectorsPerCluster && StandsFor(DirEntryAt(d, s, x), cluster)
                      then Success else ElementNotFound
    ensures status == Success ==>
      && e < 16 * g.sectorsPerCluster && StandsFor(DirEntryAt(d, s, e), cluster)
      && (forall x :: 0 <= x < e ==> !StandsFor(DirEntryAt(d, s, x), cluster))
      && ReadNoted(DirEntryAt(d, s, e), DirEntryAt(d', s, e), date)
      && (forall x :: 0 <= x < 16 * g.sectorsPerCluster && x != e ==> DirEntryAt(d', s, x) == DirEntryAt(d, s, x))
      && (forall x :: 0 <= x < |d| && x != s + e / 16 ==> d'[x] == d[x])
    ensures status != Success ==> d' == d
  {
    hide StandsFor, DirEntryAt, PutInSector, ReadNoted, Accessed;
    if status == Success {
      AccessedFields(DirEntryAt(d, s, e), date);
      forall x: nat | x < 16 * g.sectorsPerCluster
        ensures DirEntryAt(d', s, x) == if x == e then Accessed(DirEntryAt(d, s, e), date) else DirEntryAt(d, s, x)
      {
        PutDirEntryKeepsOthers(d, s, e, Accessed(DirEntryAt(d, s, e), date), s, x);
      }
    }
  }

  /** What a write leaves in the directory. */
  lemma WriteNote(g: Geometry, d0: Disk, d: Disk, s: nat, cluster: int, e: nat, nextByte: Dword, date: int, time: int)
    requires EntriesAfter(g, d0, d, s, cluster, e, Stamp(nextByte, date, time))
    ensures e < 16 * g.sectorsPerCluster && s + e / 16 < |d| == |d0|
    ensures StandsFor(DirEntryAt(d0, s, e), cluster)
    ensures WriteNoted(DirEntryAt(d0, s, e), DirEntryAt(d, s, e), nextByte, date, time)
  {
    hide StandsFor, DirEntryAt, WriteNoted, Stamped;
    StampedFields(DirEntryAt(d0, s, e), nextByte, date, time);
  }

  lemma WriteNoteOf(g: Geometry, d0: Disk, d: Disk, files: seq<seq<nat>>, f: nat, h: nat, j: nat,
                    lo: nat, data: seq<Sector>, e: nat, nextByte: Dword, date: int, time: int)
    requires WriteEffect(g, d0, d, files, f, h, j, lo, data, e, Stamp(nextByte, date, time))
    ensures f < |files| && files[f] != [] && h < |files| && j < |files[h]| && FirstSector(g, files[h][j]) >= 0
    ensures var s := FirstSector(g, files[h][j]);
      && e < 16 * g.sectorsPerCluster && s + e / 16 < |d| == |d0|
      && StandsFor(DirEntryAt(d0, s, e), files[f][0])
      && WriteNoted(DirEntryAt(d0, s, e), DirEntryAt(d, s, e), nextByte, date, time)
  {
    hide FilesAfter, EntriesAfter, FirstSector, StandsFor, DirEntryAt, WriteNoted;
    WriteNote(g, d0, d, FirstSector(g, files[h][j]), files[f][0], e, nextByte, date, time);
  }

  /** Reducing to 32 bits before the multiplication changes nothing. */
  lemma NextByteIs(sectors: nat)
    ensures sectors % DWORD_RANGE * BYTES_PER_SECTOR % DWORD_RANGE == sectors * 512 % 0x1_0000_0000
  {
    var low := sectors % DWORD_RANGE * 512;
    DivUnique(sectors * 512, DWORD_RANGE, 512 * (sectors / DWORD_RANGE) + low / DWORD_RANGE, low % DWORD_RANGE);
  }

  /** Where the written data is on the disk, from the geometry alone. */
  lemma WrittenAt(g: Geometry, d0: Disk, d: Disk, files: seq<seq<nat>>, f: nat, h: nat, j: nat,
                  lo: nat, data: seq<Sector>, e: nat, t: nat)
    requires FilesAfter(g, d0, d, files, f, h, j, lo, data, e) && t < |data|
    ensures 0 < g.sectorsPerCluster && (lo + t) / g.sectorsPerCluster < |files[f]|
    ensures var x := (files[f][(lo + t) / g.sectorsPerCluster] - 2) * g.sectorsPerCluster + g.firstDataSector
                     + (lo + t) % g.sectorsPerCluster;
      0 <= x < |d| && d[x] == data[t]
  {
    hide Formatted, SectorOfFile, InRange;
    SectorOfFileIs(g, d, files[f], lo + t);
    assert SectorOfFile(g, d, files[f], lo + t) == data[lo + t - lo];
  }

  lemma EffectFits(g: Geometry, d0: Disk, d: Disk, files: seq<seq<nat>>, f: nat, h: nat, j: nat,
                   lo: nat, data: seq<Sector>, e: nat, note: Note)
    requires WriteEffect(g, d0, d, files, f, h, j, lo, data, e, note) && data != []
    ensures lo < lo + |data| <= Sectors(g, files[f])
  {
  }

  class FatDevice {
    const g: Geometry
    var disk: Disk
    ghost var files: seq<seq<nat>>

    ghost predicate Valid()
      reads this
    {
      Formatted(g, disk) && Consistent(Fat(g, disk), files)
    }

    /** The first free entry of one FAT sector from `index` on. */
    static method FreeIndex(entries: Sector, index: nat) returns (i: nat)
      requires index < WORDS_PER_SECTOR
      ensures index <= i <= WORDS_PER_SECTOR
      ensures forall j :: index <= j < i ==> entries[j] % CLUSTER_RANGE != 0
      ensures i < WORDS_PER_SECTOR ==> entries[i] % CLUSTER_RANGE == 0
    {
      i := index;
      while i < WORDS_PER_SECTOR
        invariant index <= i <= WORDS_PER_SECTOR
        invariant forall j :: index <= j < i ==> entries[j] % CLUSTER_RANGE != 0
      {
        if entries[i] % CLUSTER_RANGE == 0 {
          return;
        }
        i := i + 1;
      }
    }

    /** The scan of _FirstFreeCluster: the first free entry from `first` on that it reaches, or 0. The
        status is a failure when no sector was read at all, and the ASSERT on the index fails when a
        reserved entry is free. */
    method ScanForFree(first: Dword) returns (status: Status, cluster: nat)
      requires Formatted(g, disk)
      ensures status == if Scans(g, first) && ReservedIsFree(Fat(g, disk), first) then Panic
                        else if first < g.Entries() && !Scans(g, first) then Unsuccessful else Success
      ensures g.ScanLimit() <= g.Entries()
      ensures cluster == if Scans(g, first) then FirstFree(Fat(g, disk), first, g.ScanLimit()) else 0
      ensures status == Panic ==> cluster < 2 && Fat(g, disk)[cluster] == 0
      ensures status != Panic && cluster != 0 ==> 2 <= cluster < g.ScanLimit() && Fat(g, disk)[cluster] == 0
    {
      hide Formatted, Fat, FatWord, FirstFree, Geometry.ScanLimit, ReservedIsFree;
      ghost var fat, scanEnd := Fat(g, disk), g.ScanLimit();
      ScanLimitIsInside(g);
      // so the replacement of an unknown start by cluster 2 is never reached
      FormattedIsSmall(g, disk);
      var limit := g.Entries() * 4 / BYTES_PER_SECTOR;
      if g.Entries() <= first {
        return Success, 0;
      }
      var firstChecked := if UNKNOWN == first then 2 else first;
      var currentSector := FatSector(g, firstChecked);
      var indexInSector := FatIndex(firstChecked);
      status, cluster := Unsuccessful, 0;
      ghost var at: nat := first;
      assert first == first / WORDS_PER_SECTOR * WORDS_PER_SECTOR + first % WORDS_PER_SECTOR;
      while currentSector < limit
        invariant g.reservedSectors <= currentSector && 0 <= indexInSector < WORDS_PER_SECTOR
        invariant at == (currentSector - g.reservedSectors) * WORDS_PER_SECTOR + indexInSector
        invariant first <= at
        invariant forall c :: first <= c < at && c < scanEnd ==> fat[c] != 0
        invariant status == if at == first then Unsuccessful else Success
        invariant at > first ==> indexInSector == 0 && Scans(g, first)
      {
        SectorEntries(g, disk, currentSector, 0, WORDS_PER_SECTOR);
        var entries := disk[currentSector];
        status := Success;
        var freeIndex := FreeIndex(entries, indexInSector);
        ghost var next := (currentSector - g.reservedSectors) * WORDS_PER_SECTOR + freeIndex;
        forall c | at <= c < next
          ensures c < scanEnd && fat[c] != 0
        {
          assert entries[c - (currentSector - g.reservedSectors) * WORDS_PER_SECTOR] % CLUSTER_RANGE != 0;
        }
        if freeIndex < WORDS_PER_SECTOR {
          cluster := (currentSector - g.reservedSectors) * WORDS_PER_SECTOR + freeIndex;
          FirstFreeIs(fat, first, scanEnd, cluster);
          FoundReserved(fat, first, cluster);
          if cluster < 2 {
            status := Panic;
          }
          return;
        }
        at := next;
        currentSector := currentSector + 1;
        indexInSector := 0;
      }
      ScanEnds(g, currentSector);
      FirstFreeNone(fat, first, scanEnd);
      if Scans(g, first) {
        ScanCoversReserved(g, first);
        FoundNone(fat, first, scanEnd);
      }
    }

    /** Replaces the value of one FAT entry in its sector. */
    method StoreEntry(c: nat, v: nat)
      requires Formatted(g, disk) && c < g.Entries() && v < CLUSTER_RANGE
      modifies this`disk
      ensures disk == WriteFat(g, old(disk), c, v)
    {
      var sector, index := FatSector(g, c), FatIndex(c);
      FatSectorIsInside(g, disk, c);
      var entries := disk[sector];
      assert entries[index] == FatWord(g, disk, c);
      entries := With(entries, index, Merge(entries[index], v));
      disk := disk[sector := entries];
    }

    /** The cluster after `c`; an entry that is free is turned into an end mark on the way. */
    method NextClusterInChain(c: nat) returns (next: int)
      requires Formatted(g, disk) && c < g.Entries()
      modifies this`disk
      ensures next == Follow(Fat(g, old(disk))[c])
      ensures g.reservedSectors + c / 128 < |old(disk)|
      ensures var v := old(disk)[g.reservedSectors + c / 128][c % 128] % 0x1000_0000;
        next == if v == 0 || v == 0x0FFF_FFF7 then 0x0FFF_FFFF else v
      ensures disk == if Fat(g, old(disk))[c] == 0 then WriteFat(g, old(disk), c, EOC_MARK) else old(disk)
    {
      FatSectorIsInside(g, disk, c);
      var entries := disk[FatSector(g, c)];
      assert entries[FatIndex(c)] == FatWord(g, disk, c);
      next := entries[FatIndex(c)] % CLUSTER_RANGE;
      if next == 0 {
        next := EOC_MARK;
        StoreEntry(c, EOC_MARK);
      } else if next == BAD_CLUSTER {
        next := EOC_MARK;
      }
    }

    /** The mark is written before the ASSERT. */
    method FirstFreeCluster(first: Dword, markReserved: bool) returns (status: Status, cluster: nat)
      requires Formatted(g, disk)
      modifies this`disk
      ensures status == if Scans(g, first) && ReservedIsFree(Fat(g, old(disk)), first) then Panic
                        else if first < g.Entries() && !Scans(g, first) then Unsuccessful else Success
      ensures g.ScanLimit() <= g.Entries()
      ensures cluster == if Scans(g, first) then FirstFree(Fat(g, old(disk)), first, g.ScanLimit()) else 0
      ensures status != Panic && cluster != 0 ==> 2 <= cluster < g.ScanLimit() && Fat(g, old(disk))[cluster] == 0
      ensures cluster < g.Entries()
      ensures disk == if (cluster != 0 || status == Panic) && markReserved then WriteFat(g, old(disk), cluster, EOC_MARK)
                      else old(disk)
    {
      status, cluster := ScanForFree(first);
      if (cluster != 0 || status == Panic) && markReserved {
        StoreEntry(cluster, EOC_MARK);
      }
    }

    /** Counts the free clusters the scan still reaches behind `r`. */
    method RecountFree(r: nat) returns (count: Dword)
      requires Formatted(g, disk) && Fat(g, disk)[0] != 0 && Fat(g, disk)[1] != 0
      requires 2 <= r < g.ScanLimit() <= g.Entries()
      modifies this`disk
      ensures disk == old(disk)
      ensures count == CountFree(Fat(g, disk), r + 1, g.ScanLimit())
    {
      hide Formatted, FirstFree, CountFree, Geometry.ScanLimit;
      ghost var d, fat, scanEnd := disk, Fat(g, disk), g.ScanLimit();
      FormattedIsSmall(g, d);
      count := 0;
      var freeCluster := r;
      while true
        invariant disk == d && r <= freeCluster < scanEnd
        invariant count as int + CountFree(fat, freeCluster + 1, scanEnd) == CountFree(fat, r + 1, scanEnd)
        decreases scanEnd - freeCluster
      {
        CountFreeSkip(fat, freeCluster + 1, scanEnd);
        CountFreeAtMost(fat, r + 1, scanEnd);
        if !Scans(g, freeCluster + 1) {
          CountBeyondScan(g, d, freeCluster + 1);
        }
        var status, next := FirstFreeCluster(freeCluster + 1, false);
        if status != Success || next == 0 {
          return;
        }
        count := count + 1;
        freeCluster := next;
      }
    }

    /** Links the reserved cluster behind `last` and brings the copy of FSINFO up to date. */
    method LinkReserved(last: nat, reserved: nat, info: Sector, ghost d: Disk) returns (info': Sector)
      requires Formatted(g, d) && 2 <= last < g.Entries() && 2 <= reserved < g.ScanLimit() <= g.Entries()
      requires Fat(g, d)[0] != 0 && Fat(g, d)[1] != 0
      requires disk == WriteFat(g, d, reserved, EOC_MARK) && info[FREE_COUNT] != 0
      modifies this`disk
      ensures disk == LinkedDisk(g, d, last, reserved)
      ensures info' == ReservedInfo(g, disk, info, reserved)
    {
      hide Formatted, CountFree, Geometry.ScanLimit, Merge;
      WriteFatEffect(g, d, reserved, EOC_MARK);
      StoreEntry(last, reserved);
      assert disk == LinkedDisk(g, d, last, reserved);
      info' := With(info, NXT_FREE, reserved);
      if info[FREE_COUNT] == UNKNOWN {
        var count := RecountFree(reserved);
        info' := With(info', FREE_COUNT, count);
      } else {
        info' := With(info', FREE_COUNT, info[FREE_COUNT] - 1);
      }
    }

    /** Reserves a free cluster and links it behind `last`. The status of the failures inside
        is overwritten by that of writing FSINFO back; a reserved cluster means success. */
    method AddNewClusterToChain(last: nat) returns (status: Status, reserved: nat)
      requires Formatted(g, disk) && 2 <= last < g.Entries()
      requires Fat(g, disk)[0] != 0 && Fat(g, disk)[1] != 0 && Fat(g, disk)[last] != 0
      modifies this`disk
      ensures reserved == Reservation(g, old(disk))
      ensures status == if AssertFails(g, old(disk)) then Panic else Success
      ensures reserved != 0 ==>
        && old(disk)[FSINFO_SECTOR][FREE_COUNT] != 0 && 2 <= reserved < g.ScanLimit() <= g.Entries()
        && disk == Appended(g, old(disk), last, reserved)
      ensures reserved == 0 ==>
        && |disk| == |old(disk)| && disk == old(disk)[FSINFO_SECTOR := disk[FSINFO_SECTOR]]
        && disk[FSINFO_SECTOR] == InfoWithoutFree(g, old(disk)[FSINFO_SECTOR])
      // the same in words 122 and 123 of FSINFO, the free count and the hint, and in entries of the FAT
      ensures 1 < |old(disk)| && g.ScanLimit() <= g.Entries() && Formatted(g, disk) && 1 < |disk|
      ensures reserved != 0 <==>
        old(disk)[1][122] != 0 && exists c: nat :: old(disk)[1][123] <= c < g.ScanLimit() && Fat(g, old(disk))[c] == 0
      ensures reserved != 0 ==>
        && status == Success
        && old(disk)[1][123] <= reserved < g.ScanLimit() && Fat(g, old(disk))[reserved] == 0
        && (forall c: nat :: old(disk)[1][123] <= c < reserved ==> Fat(g, old(disk))[c] != 0)
        && Fat(g, disk) == Fat(g, old(disk))[reserved := 0x0FFF_FFFF][last := reserved]
        && disk[1][123] == reserved
        && disk[1][122] == (if old(disk)[1][122] == 0xFFFF_FFFF then CountFree(Fat(g, disk), reserved + 1, g.ScanLimit())
                            else old(disk)[1][122] - 1)
      ensures reserved == 0 ==>
        var count, hint := old(disk)[1][122], old(disk)[1][123];
        var vain := count == 0xFFFF_FFFF && !(g.ScanLimit() <= hint < g.countOfClusters + 2);
        && disk[1][122] == (if vain then 0 else count)
        && disk[1][123] == (if vain || count == 0 then 0xFFFF_FFFF else hint)
      ensures status == Panic <==>
        && old(disk)[1][122] != 0 && old(disk)[1][122] != 0xFFFF_FFFF
        && (old(disk)[1][123] >= g.countOfClusters + 2
            || (old(disk)[1][123] < g.ScanLimit()
                && forall c: nat :: old(disk)[1][123] <= c < g.ScanLimit() ==> Fat(g, old(disk))[c] != 0))
    {
      hide Formatted, Fat, CountFree, Geometry.ScanLimit, Reservation, AssertFails, InfoWithoutFree, Appended, SameReservedBits,
           SameOutsideFat;
      ghost var d := disk;
      FsInfoIsInside(g, d);
      ReservationIs(g, d);
      RefusedInfo(g, d[FSINFO_SECTOR]);
      if Reservation(g, d) != 0 {
        AppendedInfo(g, d, last, Reservation(g, d));
      } else {
        FsInfoChange(g, d, d[FSINFO_SECTOR := InfoWithoutFree(g, d[FSINFO_SECTOR])]);
      }
      status, reserved := AddCluster(last);
      FsInfoIsInside(g, disk);
    }

    /** The steps of AddNewClusterToChain. */
    method AddCluster(last: nat) returns (status: Status, reserved: nat)
      requires Formatted(g, disk) && 2 <= last < g.Entries()
      requires Fat(g, disk)[0] != 0 && Fat(g, disk)[1] != 0 && Fat(g, disk)[last] != 0
      modifies this`disk
      ensures reserved == Reservation(g, old(disk))
      ensures status == if AssertFails(g, old(disk)) then Panic else Success
      ensures reserved != 0 ==>
        && old(disk)[FSINFO_SECTOR][FREE_COUNT] != 0 && 2 <= reserved < g.ScanLimit() <= g.Entries()
        && disk == Appended(g, old(disk), last, reserved)
      ensures reserved == 0 ==>
        && |disk| == |old(disk)| && disk == old(disk)[FSINFO_SECTOR := disk[FSINFO_SECTOR]]
        && disk[FSINFO_SECTOR] == InfoWithoutFree(g, old(disk)[FSINFO_SECTOR])
    {
      hide Formatted, FirstFree, CountFree, Geometry.ScanLimit, Merge, ReservedInfo, LinkedDisk;
      ghost var d := disk;
      ScanLimitIsInside(g);
      ReservationFails(g, d);
      FatSectorIsInside(g, d, last);
      var info := disk[FSINFO_SECTOR];
      var freeCount := info[FREE_COUNT];
      reserved := 0;
      status := Success;
      if freeCount == 0 {
        info := With(info, NXT_FREE, UNKNOWN);
      } else {
        var found;
        found, reserved := FirstFreeCluster(info[NXT_FREE], true);
        if found == Success && reserved == 0 {
          if freeCount != UNKNOWN {
            return Panic, 0;
          }
          info := With(With(info, FREE_COUNT, 0), NXT_FREE, UNKNOWN);
        } else if found == Success {
          info := LinkReserved(last, reserved, info, d);
        }
      }
      disk := disk[FSINFO_SECTOR := info];
    }

    /** The first sector of the cluster after the one `currentSector` is in; at the end of the
        chain a new cluster's if asked to extend it, else 0. Sector 0 is in no cluster. */
    method NextSectorInClusterChain(currentSector: int, extendChain: bool, ghost f: nat, ghost i: nat, ghost k: nat)
      returns (status: Status, nextSector: int)
      requires Valid() && f < |files| && i < |files[f]| && k < g.sectorsPerCluster
      requires currentSector == 0 || currentSector == FirstSector(g, files[f][i]) + k
      modifies this
      ensures Valid() && SameOutsideFat(g, old(disk), disk) && Grown(g, old(disk), old(files), disk, files, f)
      ensures currentSector == 0 ==> status == ClusterInvalid && disk == old(disk) && files == old(files)
      ensures currentSector != 0 && (i + 1 < |old(files)[f]| || !extendChain) ==>
        && status == Success && disk == old(disk) && files == old(files)
        && nextSector == if i + 1 < |old(files)[f]| then FirstSector(g, files[f][i + 1]) else 0
      ensures currentSector != 0 && status == Success && i + 1 == |old(files)[f]| && extendChain ==>
        && |files[f]| == i + 2 && nextSector == FirstSector(g, files[f][i + 1])
      ensures status != Success ==> files == old(files)
      // an extension succeeds iff a cluster is available
      ensures Formatted(g, old(disk)) && f < |files|
      ensures currentSector != 0 ==>
        status == if i + 1 < |old(files)[f]| || !extendChain || Available(g, old(disk)) > 0 then Success
                  else if Overstated(g, old(disk)) then Panic else ClusterInvalid
      ensures |files[f]| + Available(g, disk) == |old(files)[f]| + Available(g, old(disk))
      ensures Overstated(g, disk) <==> Overstated(g, old(disk))
    {
      hide Formatted, CountFree, Fat, IsChain, Geometry.ScanLimit, Grown, SameOutsideFat, Consistent, Appended, Merge, FirstFree,
           Available, Overstated, AssertFails, Reservation, Scans;
      ghost var d, fs := disk, files;
      nextSector := 0;
      GrownReflexive(g, d, fs, f);
      if currentSector == 0 {
        SectorZeroIsInvalid(g, d);
      } else {
        ChainLink(g, d, fs, f, i, k);
      }
      var currentCluster := ClusterOf(g, currentSector);
      if !ValidCluster(g, currentCluster) {
        return ClusterInvalid, 0;
      }
      var nextCluster := NextClusterInChain(currentCluster);
      if IsEoc(nextCluster) {
        if !extendChain {
          return Success, 0;
        }
        ReservesIffAvailable(g, d);
        if Reservation(g, d) != 0 {
          ReservingUsesOne(g, d, currentCluster);
        } else {
          FsInfoIsInside(g, d);
          RefusalChangesNothing(g, d, d[FSINFO_SECTOR := InfoWithoutFree(g, d[FSINFO_SECTOR])]);
        }
        status, nextCluster := AddNewClusterToChain(currentCluster);
        if status != Success {
          FsInfoOnly(g, d, disk, fs, f);
          return;
        }
        if nextCluster != 0 {
          files := files[f := files[f] + [nextCluster]];
          AppendedGrows(g, d, fs, f, nextCluster);
        } else {
          FsInfoOnly(g, d, disk, fs, f);
        }
      }
      if !ValidCluster(g, nextCluster) {
        return ClusterInvalid, 0;
      }
      nextSector := FirstSector(g, nextCluster);
      status := Success;
    }

    /** The device copies `count` sectors from `start` on into the buffer. */
    method ReadSectors(start: nat, count: nat, buffer: array<Sector>, at: nat)
      requires start + count <= |disk| && at + count <= buffer.Length
      modifies buffer
      ensures forall t :: 0 <= t < buffer.Length ==>
        buffer[t] == if at <= t < at + count then disk[start + t - at] else old(buffer[t])
    {
      forall t | 0 <= t < count {
        buffer[at + t] := disk[start + t];
      }
    }

    /** The device stores the data from sector `start` on. */
    method WriteSectors(start: nat, data: seq<Sector>)
      requires start + |data| <= |disk|
      modifies this`disk
      ensures disk == PutSectors(old(disk), start, data)
    {
      disk := PutSectors(disk, start, data);
    }

    /** Reads the directory cluster at `entrySector`. */
    method ReadDirectory(entrySector: nat) returns (entries: array<Sector>)
      requires entrySector + g.sectorsPerCluster <= |disk|
      ensures fresh(entries) && entries[..] == disk[entrySector..entrySector + g.sectorsPerCluster]
    {
      var zero: Sector := seq(WORDS_PER_SECTOR, _ => 0);
      entries := new Sector[g.sectorsPerCluster](_ => zero);
      ReadSectors(entrySector, g.sectorsPerCluster, entries, 0);
    }

    /** The first entry of the directory cluster at `entrySector` for the file that starts at
        `firstSector`, if that is a sector of a cluster. */
    method GetDirEntryFromSector(entrySector: nat, firstSector: nat) returns (status: Status, index: nat, entry: DirEntry)
      requires Formatted(g, disk) && entrySector + g.sectorsPerCluster <= |disk|
      ensures 0 < g.sectorsPerCluster
      ensures status == if !ValidCluster(g, ClusterOf(g, firstSector)) then ClusterInvalid
                        else if exists e: nat ::
                          e < 16 * g.sectorsPerCluster && StandsFor(DirEntryAt(disk, entrySector, e), ClusterOf(g, firstSector))
                        then Success else ElementNotFound
      ensures status == Success ==>
        && index < ENTRIES_PER_SECTOR * g.sectorsPerCluster
        && entrySector + index / ENTRIES_PER_SECTOR < |disk|
        && entry == DirEntryAt(disk, entrySector, index)
        && StandsFor(entry, ClusterOf(g, firstSector))
        && forall e :: 0 <= e < index ==> !StandsFor(DirEntryAt(disk, entrySector, e), ClusterOf(g, firstSector))
    {
      hide Formatted, StandsFor, EntryMatches, ClusterOf, DirEntryAt, HasEntry, ValidCluster;
      FormattedIsSmall(g, disk);
      var entries := ReadDirectory(entrySector);
      index, entry := 0, seq(ENTRY_WORDS, _ => 0);
      var cluster := ClusterOf(g, firstSector);
      if !ValidCluster(g, cluster) {
        return ClusterInvalid, index, entry;
      }
      while index < ENTRIES_PER_SECTOR * g.sectorsPerCluster
        invariant index <= ENTRIES_PER_SECTOR * g.sectorsPerCluster
        invariant entries[..] == disk[entrySector..entrySector + g.sectorsPerCluster]
        invariant forall e :: 0 <= e < index ==> !StandsFor(DirEntryAt(disk, entrySector, e), cluster)
      {
        EntryInCluster(disk, entrySector, g.sectorsPerCluster, index);
        entry := DirEntryAt(entries[..], 0, index);
        MatchesIffStandsFor(entry, cluster);
        if EntryMatches(entry, cluster) {
          EntryFound(g, disk, entrySector, cluster, index);
          return Success, index, entry;
        }
        index := index + 1;
      }
      NoEntryFound(g, disk, entrySector, cluster);
      status := ElementNotFound;
    }

    /** Reads the directory cluster, replaces one entry, and writes the cluster back: that entry changes,
        and no other one nor any sector outside the cluster. */
    method WriteDirEntryToSector(entrySector: nat, index: nat, entry: DirEntry)
      requires entrySector + g.sectorsPerCluster <= |disk| && index < ENTRIES_PER_SECTOR * g.sectorsPerCluster
      modifies this`disk
      ensures |disk| == |old(disk)|
      ensures forall e :: 0 <= e < ENTRIES_PER_SECTOR * g.sectorsPerCluster ==>
        DirEntryAt(disk, entrySector, e) == if e == index then entry else DirEntryAt(old(disk), entrySector, e)
      ensures forall s :: 0 <= s < |disk| && !(entrySector <= s < entrySector + g.sectorsPerCluster) ==>
        disk[s] == old(disk)[s]
      ensures disk == PutDirEntry(old(disk), entrySector, index, entry)
    {
      hide DirEntryAt, PutInSector;
      ghost var d := disk;
      var entries := ReadDirectory(entrySector);
      var at := index / ENTRIES_PER_SECTOR;
      entries[at] := PutInSector(entries[at], index % ENTRIES_PER_SECTOR, entry);
      WriteSectors(entrySector, entries[..]);
      assert disk == PutDirEntry(d, entrySector, index, entry);
      forall e: nat | e < ENTRIES_PER_SECTOR * g.sectorsPerCluster
        ensures DirEntryAt(disk, entrySector, e) == if e == index then entry else DirEntryAt(d, entrySector, e)
      {
        PutDirEntryKeepsOthers(d, entrySector, index, entry, entrySector, e);
      }
    }

    /** Follows (or extends) the chain to the cluster that holds sector `sectorOffset`. */
    method Traverse(baseFileSector: nat, sectorOffset: nat, extendChain: bool, ghost f: nat)
      returns (status: Status, currentSector: int, ghost i: nat)
      requires Valid() && f < |files| && files[f] != [] && baseFileSector == FirstSector(g, files[f][0])
      modifies this
      ensures Valid() && SameOutsideFat(g, old(disk), disk) && Grown(g, old(disk), old(files), disk, files, f)
      ensures status == Success ==>
        && i < |files[f]| && currentSector == FirstSector(g, files[f][i])
        && i * g.sectorsPerCluster <= sectorOffset < i * g.sectorsPerCluster + g.sectorsPerCluster
      ensures status == Success ==> |files[f]| == if i < |old(files)[f]| then |old(files)[f]| else i + 1
      ensures |files[f]| > |old(files)[f]| ==> Sectors(g, files[f]) <= sectorOffset + g.sectorsPerCluster
      ensures !extendChain ==> disk == old(disk) && files == old(files)
      ensures !extendChain ==> status == EndOfTraversal(g, |old(files)[f]|, sectorOffset)
      // an extending traversal succeeds iff the clusters there and those available reach the offset
      ensures Formatted(g, old(disk)) && f < |files|
      ensures extendChain ==>
        status == if sectorOffset < (|old(files)[f]| + Available(g, old(disk))) * g.sectorsPerCluster then Success
                  else if Overstated(g, old(disk)) then Panic else ClusterInvalid
      ensures |files[f]| + Available(g, disk) == |old(files)[f]| + Available(g, old(disk))
      ensures Overstated(g, disk) <==> Overstated(g, old(disk))
    {
      hide Formatted, Consistent, Fat, Grown, SameOutsideFat, Available, Overstated;
      ghost var d0, files0 := disk, files;
      ghost var reach := |files0[f]| + Available(g, d0);
      GrownReflexive(g, d0, files0, f);
      currentSector := baseFileSector;
      i := 0;
      var sectorsTraversed := 0;
      OffsetInCluster(g, d0, files0, f, 0, sectorOffset);
      while sectorsTraversed + g.sectorsPerCluster <= sectorOffset
        invariant Valid() && SameOutsideFat(g, d0, disk) && Grown(g, d0, files0, disk, files, f)
        invariant |files| == |files0| && |files0[f]| <= |files[f]|
        invariant !extendChain ==> disk == d0 && files == files0
        invariant i <= |files[f]| && (extendChain ==> i < |files[f]|)
        invariant |files[f]| == if i < |files0[f]| then |files0[f]| else if extendChain then i + 1 else i
        invariant currentSector == if i < |files[f]| then FirstSector(g, files[f][i]) else 0
        invariant sectorsTraversed == i * g.sectorsPerCluster <= sectorOffset
        invariant |files[f]| + Available(g, disk) == reach && (Overstated(g, disk) <==> Overstated(g, d0))
        decreases sectorOffset - sectorsTraversed
      {
        ghost var d1, files1 := disk, files;
        OffsetInCluster(g, d1, files1, f, i, sectorOffset);
        var nextSector;
        status, nextSector := NextSectorInClusterChain(currentSector, extendChain, f, if i < |files[f]| then i else 0, 0);
        GrownTransitive(g, d0, files0, d1, files1, disk, files, f);
        SameOutsideFatTransitive(g, d0, d1, disk);
        if status != Success {
          if extendChain {
            MulMonotone(reach, i + 1, g.sectorsPerCluster);
          }
          return;
        }
        currentSector := nextSector;
        sectorsTraversed := sectorsTraversed + g.sectorsPerCluster;
        i := i + 1;
      }
      OffsetInCluster(g, disk, files, f, i, sectorOffset);
      if extendChain {
        MulMonotone(i + 1, reach, g.sectorsPerCluster);
      }
      status := if currentSector == 0 then Panic else Success;
    }

    /** Rewrites the entry of the file that starts at `firstSector`, if the cluster has one. */
    method UpdateDirEntry(dirEntrySector: nat, firstSector: nat, note: Note, ghost h: nat, ghost j: nat)
      returns (status: Status, ghost e: nat)
      requires Valid() && h < |files| && j < |files[h]| && dirEntrySector == FirstSector(g, files[h][j])
      requires 0 < g.sectorsPerCluster && ValidCluster(g, ClusterOf(g, firstSector)) && ValidNote(note)
      modifies this`disk
      ensures Valid() && Formatted(g, old(disk))
      ensures Fat(g, disk) == Fat(g, old(disk)) && SameReservedBits(g, old(disk), disk)
      ensures |disk| == |old(disk)| && FSINFO_SECTOR < |disk| && disk[FSINFO_SECTOR] == old(disk)[FSINFO_SECTOR]
      ensures Noted(g, old(disk), dirEntrySector, ClusterOf(g, firstSector), status, e, note, disk)
    {
      FsInfoIsInside(g, disk);
      hide Consistent, Formatted, StandsFor, Fat, ClusterOf;
      ChainLink(g, disk, files, h, j, 0);
      ClusterIsInside(g, disk, files[h][j], 0);
      var index, entry;
      status, index, entry := GetDirEntryFromSector(dirEntrySector, firstSector);
      e := index;
      if status != Success {
        return;
      }
      DirSectorIsData(g, disk, files[h][j], index);
      DataWriteKeepsFat(g, disk, PutDirEntry(disk, dirEntrySector, index, Updated(entry, note)));
      WriteDirEntryToSector(dirEntrySector, index, Updated(entry, note));
    }

    /** The transfer loop of FatReadFile, from the file's cluster `i0` on: cluster by cluster
        until enough is read or the chain ends. */
    method ReadClusters(firstSector: int, sectorOffset: nat, sectorsToRead: nat, buffer: array<Sector>,
                        ghost f: nat, ghost i0: nat)
      returns (sectorsRead: nat)
      requires Valid() && f < |files| && i0 < |files[f]| && firstSector == FirstSector(g, files[f][i0])
      requires 0 < sectorsToRead <= buffer.Length && 0 < g.sectorsPerCluster
      requires i0 * g.sectorsPerCluster <= sectorOffset < i0 * g.sectorsPerCluster + g.sectorsPerCluster
      modifies this, buffer
      ensures disk == old(disk) && files == old(files)
      ensures Formatted(g, disk) && InRange(g, files[f]) && sectorOffset + sectorsRead <= Sectors(g, files[f])
      ensures sectorsRead == sectorsToRead || (sectorsRead < sectorsToRead && sectorOffset + sectorsRead == Sectors(g, files[f]))
      ensures forall t :: 0 <= t < buffer.Length ==>
        buffer[t] == if t < sectorsRead then SectorOfFile(g, disk, files[f], sectorOffset + t) else old(buffer[t])
    {
      hide Formatted, Consistent, Fat, Grown, SameOutsideFat, SectorOfFile, Positioned, FirstSector, Sectors;
      ghost var d, fs, chain := disk, files, files[f];
      ghost var i: nat, k: nat := i0, sectorOffset % g.sectorsPerCluster;
      StartPosition(g, chain, i0, sectorOffset);
      var currentSector := firstSector + sectorOffset % g.sectorsPerCluster;
      var remaining := sectorsToRead;
      var chunk := Min(remaining, g.sectorsPerCluster - sectorOffset % g.sectorsPerCluster);
      sectorsRead := 0;
      while true
        invariant disk == d && files == fs
        invariant k < g.sectorsPerCluster
        invariant Positioned(g, chain, i, k, sectorOffset + sectorsRead, currentSector)
        invariant sectorsRead + remaining == sectorsToRead && remaining > 0
        invariant chunk == Min(remaining, g.sectorsPerCluster - k)
        invariant sectorsRead > 0 ==> InRange(g, chain) && sectorOffset + sectorsRead <= Sectors(g, chain)
        invariant forall t :: 0 <= t < buffer.Length ==>
          buffer[t] == if t < sectorsRead then SectorOfFile(g, d, chain, sectorOffset + t) else old(buffer[t])
        decreases remaining
      {
        ghost var p, s := sectorOffset + sectorsRead, currentSector;
        ChunkIsRun(g, d, fs, f, i, k, p, s, chunk);
        ReadSectors(currentSector, chunk, buffer, sectorsRead);
        sectorsRead := sectorsRead + chunk;
        remaining := remaining - chunk;
        if remaining == 0 {
          break;
        }
        ChunkToNext(g, d, fs, f, i, k, p, s, chunk);
        var status, nextSector := NextSectorInClusterChain(currentSector, false, f, i, k);
        if nextSector == 0 {
          break;
        }
        currentSector := nextSector;
        i, k := i + 1, 0;
        chunk := Min(g.sectorsPerCluster, remaining);
      }
    }

    /** Stores the part of the data that goes into one cluster. */
    method StoreChunk(currentSector: int, sectorOffset: nat, sectorsWritten: nat, chunk: nat, data: seq<Sector>,
                      ghost d0: Disk, ghost files0: seq<seq<nat>>, ghost f: nat, ghost i: nat, ghost k: nat)
      requires Valid() && Grown(g, d0, files0, disk, files, f) && f < |files| && k < g.sectorsPerCluster
      requires Positioned(g, files[f], i, k, sectorOffset + sectorsWritten, currentSector)
      requires 0 < chunk <= g.sectorsPerCluster - k && sectorsWritten + chunk <= |data|
      requires Written(g, d0, disk, files[f], sectorOffset, sectorOffset + sectorsWritten, data)
      modifies this`disk
      ensures Valid() && Grown(g, d0, files0, disk, files, f)
      ensures Written(g, d0, disk, files[f], sectorOffset, sectorOffset + sectorsWritten + chunk, data)
      ensures i < |files[f]| && currentSector == FirstSector(g, files[f][i]) + k != 0
      ensures Formatted(g, old(disk)) && Available(g, disk) == Available(g, old(disk))
      ensures Overstated(g, disk) <==> Overstated(g, old(disk))
    {
      hide Formatted, Consistent, Fat, Grown, SameOutsideFat, SectorOfFile, Positioned, FirstSector, Sectors, Written, PutSectors,
           Available, Overstated;
      ghost var p, d1 := sectorOffset + sectorsWritten, disk;
      FsInfoIsInside(g, d1);
      WrittenChunk(g, d0, d1, files, f, sectorOffset, p, data, i, k, currentSector, chunk);
      var part := data[sectorsWritten..sectorsWritten + chunk];
      PutSectorsIsLocal(g, d1, currentSector, part);
      DataWriteKeepsFat(g, d1, PutSectors(d1, currentSector, part));
      DataWriteKeepsGrown(g, d0, files0, d1, PutSectors(d1, currentSector, part), files, f);
      DataWriteKeepsAvailable(g, d1, PutSectors(d1, currentSector, part));
      WriteSectors(currentSector, part);
    }

    /** The transfer loop of FatWriteFile, from the file's cluster `i0` on: cluster by cluster,
        extending the chain whenever it ends. */
    method WriteClusters(firstSector: int, sectorOffset: nat, data: seq<Sector>, ghost f: nat, ghost i0: nat)
      returns (status: Status, sectorsWritten: nat)
      requires Valid() && f < |files| && i0 < |files[f]| && firstSector == FirstSector(g, files[f][i0])
      requires 0 < |data| && 0 < g.sectorsPerCluster
      requires i0 * g.sectorsPerCluster <= sectorOffset < i0 * g.sectorsPerCluster + g.sectorsPerCluster
      modifies this
      ensures Valid() && Grown(g, old(disk), old(files), disk, files, f) && f < |files|
      ensures Written(g, old(disk), disk, files[f], sectorOffset, sectorOffset + sectorsWritten, data)
      ensures status == Success ==> sectorsWritten == |data|
      // no more clusters than the data needs
      ensures |files[f]| > |old(files)[f]| ==> Sectors(g, files[f]) < sectorOffset + |data| + g.sectorsPerCluster
      // all is stored iff the clusters there and those available hold it
      ensures Formatted(g, old(disk))
      ensures status == if sectorOffset + |data| <= (|old(files)[f]| + Available(g, old(disk))) * g.sectorsPerCluster then Success
                        else if Overstated(g, old(disk)) then Panic else ClusterInvalid
      ensures status != Success ==>
        sectorOffset + sectorsWritten == (|old(files)[f]| + Available(g, old(disk))) * g.sectorsPerCluster
      ensures |files[f]| + Available(g, disk) == |old(files)[f]| + Available(g, old(disk))
      ensures Overstated(g, disk) <==> Overstated(g, old(disk))
    {
      hide Formatted, Consistent, Fat, Grown, SameOutsideFat, SectorOfFile, Positioned, FirstSector, Sectors, Written, PutSectors,
           Available, Overstated;
      ghost var d0, files0 := disk, files;
      ghost var reach := |files0[f]| + Available(g, d0);
      ghost var i: nat, k: nat := i0, sectorOffset % g.sectorsPerCluster;
      GrownReflexive(g, d0, files0, f);
      WrittenNothing(g, d0, d0, files0, f, sectorOffset, data);
      StartPosition(g, files[f], i0, sectorOffset);
      var currentSector := firstSector + sectorOffset % g.sectorsPerCluster;
      var remaining := |data|;
      var chunk := Min(remaining, g.sectorsPerCluster - sectorOffset % g.sectorsPerCluster);
      sectorsWritten := 0;
      while true
        invariant Valid() && Grown(g, d0, files0, disk, files, f) && f < |files|
        invariant k < g.sectorsPerCluster
        invariant Positioned(g, files[f], i, k, sectorOffset + sectorsWritten, currentSector)
        invariant sectorsWritten + remaining == |data| && remaining > 0
        invariant chunk == Min(remaining, g.sectorsPerCluster - k)
        invariant Written(g, d0, disk, files[f], sectorOffset, sectorOffset + sectorsWritten, data)
        invariant |files[f]| > |files0[f]| ==> Sectors(g, files[f]) < sectorOffset + |data| + g.sectorsPerCluster
        invariant |files[f]| + Available(g, disk) == reach && (Overstated(g, disk) <==> Overstated(g, d0))
        decreases remaining
      {
        ghost var p, s, files1 := sectorOffset + sectorsWritten, currentSector, files;
        StoreChunk(currentSector, sectorOffset, sectorsWritten, chunk, data, d0, files0, f, i, k);
        sectorsWritten := sectorsWritten + chunk;
        remaining := remaining - chunk;
        StoredWithinReach(g, d0, disk, files[f], sectorOffset, sectorOffset + sectorsWritten, data, reach);
        if remaining == 0 {
          status := Success;
          break;
        }
        ghost var d2 := disk;
        var nextSector;
        status, nextSector := NextSectorInClusterChain(currentSector, true, f, i, k);
        GrownTransitive(g, d0, files0, d2, files1, disk, files, f);
        GrownPrefix(g, d2, files1, disk, files, f);
        WrittenGrows(g, d0, d2, disk, files1, files, f, sectorOffset, sectorOffset + sectorsWritten, data);
        if status != Success {
          EndOutOfReach(g, files1[f], i, k, p, s, chunk, reach);
          break;
        }
        ExtendedPosition(g, disk, files1, files, f, i, k, p, s, chunk);
        currentSector := nextSector;
        i, k := i + 1, 0;
        chunk := Min(g.sectorsPerCluster, remaining);
      }
    }

    /** Reads sectors of file `f` into the buffer, as far as its chain goes, and notes the access
        in the first directory entry for the file. */
    method ReadFile(baseFileSector: nat, sectorOffset: nat, dirEntrySector: nat, buffer: array<Sector>,
                    sectorsToRead: nat, date: int, ghost f: nat, ghost h: nat, ghost j: nat)
      returns (status: Status, sectorsRead: nat, ghost e: nat)
      requires Valid() && f < |files| && h < |files| && f != h && j < |files[h]|
      requires files[f] != [] && baseFileSector == FirstSector(g, files[f][0])
      requires dirEntrySector == FirstSector(g, files[h][j])
      requires sectorsToRead <= buffer.Length && 0 <= date < 0x1_0000
      modifies this, buffer
      ensures Valid() && files == old(files) && Formatted(g, old(disk)) && InRange(g, files[f])
      // nothing to do, or a failed ASSERT, or an offset behind the end of the file
      ensures baseFileSector % g.sectorsPerCluster != 0 || sectorsToRead == 0 || sectorOffset >= Sectors(g, files[f]) ==>
        && disk == old(disk) && sectorsRead == 0
        && (forall t :: 0 <= t < buffer.Length ==> buffer[t] == old(buffer[t]))
        && status == (if baseFileSector % g.sectorsPerCluster != 0 then Panic
                      else if sectorsToRead == 0 then Success
                      else EndOfTraversal(g, |files[f]|, sectorOffset))
      // else the sectors from the offset on, as many as asked for and there are
      ensures baseFileSector % g.sectorsPerCluster == 0 && sectorsToRead > 0 && sectorOffset < Sectors(g, files[f]) ==>
        var n := Min(sectorsToRead, Sectors(g, files[f]) - sectorOffset);
        && (forall t :: 0 <= t < buffer.Length ==>
              buffer[t] == if t < n then SectorOfFile(g, old(disk), files[f], sectorOffset + t) else old(buffer[t]))
        && Noted(g, old(disk), dirEntrySector, files[f][0], status, e, Touch(date), disk)
        && (status == Success ==> sectorsRead == n)
      // how it ends, by the sizes and by the bytes of the directory
      ensures 0 < g.sectorsPerCluster && dirEntrySector + g.sectorsPerCluster <= |old(disk)| == |disk|
      ensures status ==
              if baseFileSector % g.sectorsPerCluster != 0 then Panic
              else if sectorsToRead == 0 then Success
              else if sectorOffset >= (|files[f]| + 1) * g.sectorsPerCluster then ClusterInvalid
              else if sectorOffset >= |files[f]| * g.sectorsPerCluster then Panic
              else if exists x: nat :: x < 16 * g.sectorsPerCluster && StandsFor(DirEntryAt(old(disk), dirEntrySector, x), files[f][0])
              then Success else ElementNotFound
      // and the one entry that changes
      ensures status == Success && sectorsToRead > 0 ==>
        && e < 16 * g.sectorsPerCluster && StandsFor(DirEntryAt(old(disk), dirEntrySector, e), files[f][0])
        && ReadNoted(DirEntryAt(old(disk), dirEntrySector, e), DirEntryAt(disk, dirEntrySector, e), date)
    {
      hide Formatted, Consistent, Fat, Grown, SameOutsideFat, SectorOfFile, Noted, FirstSector, ClusterOf, EndOfTraversal, StandsFor,
           ReadNoted, DirEntryAt;
      ghost var d := disk;
      DirectoryIsInside(g, d, files, h, j);
      EndOfTraversalIs(g, |files[f]|, sectorOffset);
      sectorsRead, e := 0, 0;
      TraversalEnds(g, disk, files, f, sectorOffset);
      if baseFileSector % g.sectorsPerCluster != 0 {
        return Panic, 0, 0;
      }
      if sectorsToRead == 0 {
        return Success, 0, 0;
      }
      var currentSector;
      ghost var i;
      status, currentSector, i := Traverse(baseFileSector, sectorOffset, false, f);
      if status != Success {
        return;
      }
      var n := ReadClusters(currentSector, sectorOffset, sectorsToRead, buffer, f, i);
      status, e := UpdateDirEntry(dirEntrySector, baseFileSector, Touch(date), h, j);
      ReadNote(g, d, dirEntrySector, files[f][0], status, e, date, disk);
      if status == Success {
        sectorsRead := n;
      }
    }

    /** Writes the data to file `f` from the sector offset on, extending its chain as needed, and
        notes access, write and size in the first directory entry for the file. */
    method WriteFile(baseFileSector: nat, sectorOffset: nat, dirEntrySector: nat, data: seq<Sector>,
                     date: int, time: int, ghost f: nat, ghost h: nat, ghost j: nat)
      returns (status: Status, sectorsWritten: nat, ghost e: nat, ghost done: nat)
      requires Valid() && f < |files| && h < |files| && f != h && j < |files[h]|
      requires files[f] != [] && baseFileSector == FirstSector(g, files[f][0])
      requires dirEntrySector == FirstSector(g, files[h][j])
      requires 0 <= date < 0x1_0000 && 0 <= time < 0x1_0000
      modifies this
      ensures Formatted(g, old(disk))
      ensures status == WriteOutcome(g, old(disk), |old(files)[f]|, baseFileSector, sectorOffset, |data|,
                                     dirEntrySector, old(files)[f][0])
      // on success and on failure alike: only file `f` has grown, only its sectors are written
      ensures Valid() && Grown(g, old(disk), old(files), disk, files, f) && f < |files|
      ensures |files[f]| > |old(files)[f]| ==> Sectors(g, files[f]) < sectorOffset + |data| + g.sectorsPerCluster
      ensures baseFileSector % g.sectorsPerCluster != 0 || data == [] ==> disk == old(disk)
      ensures status != Success ==>
        && sectorsWritten == 0
        && Written(g, old(disk), disk, files[f], sectorOffset, sectorOffset + done, data)
        && done == (if baseFileSector % g.sectorsPerCluster != 0 then 0
                    else if status == ElementNotFound then |data|
                    else RoomFrom(g, old(disk), |old(files)[f]|, sectorOffset))
      ensures status == Success ==> sectorsWritten == |data|
      ensures status == Success && data != [] ==>
        WriteEffect(g, old(disk), disk, files, f, h, j, sectorOffset, data, e,
                    Stamp((sectorOffset + |data|) % DWORD_RANGE * BYTES_PER_SECTOR % DWORD_RANGE, date, time))
      // when it succeeds, by the sizes and by the bytes of the directory, and the one entry that changes
      ensures 0 < g.sectorsPerCluster && dirEntrySector + g.sectorsPerCluster <= |old(disk)| == |disk|
      ensures status == Success <==>
        && baseFileSector % g.sectorsPerCluster == 0
        && (data == []
            || (sectorOffset + |data| <= (|old(files)[f]| + Available(g, old(disk))) * g.sectorsPerCluster
                && HasEntry(g, old(disk), dirEntrySector, old(files)[f][0])))
      ensures status == Success && data != [] ==>
        && e < 16 * g.sectorsPerCluster && StandsFor(DirEntryAt(old(disk), dirEntrySector, e), old(files)[f][0])
        && WriteNoted(DirEntryAt(old(disk), dirEntrySector, e), DirEntryAt(disk, dirEntrySector, e),
                      (sectorOffset + |data|) * 512 % 0x1_0000_0000, date, time)
    {
      hide Formatted, Consistent, Fat, Grown, SameOutsideFat, SectorOfFile, Noted, FirstSector, ClusterOf, Sectors, Written,
           Available, Overstated, HasEntry, WriteEffect, StandsFor, DirEntryAt, WriteNoted;
      ghost var d0, files0 := disk, files;
      DirectoryIsInside(g, d0, files0, h, j);
      sectorsWritten, e, done := 0, 0, 0;
      TraversalEnds(g, d0, files0, f, sectorOffset);
      GrownReflexive(g, d0, files0, f);
      WrittenNothing(g, d0, d0, files0, f, sectorOffset, data);
      if baseFileSector % g.sectorsPerCluster != 0 {
        status := Panic;
        return;
      }
      if data == [] {
        status := Success;
        return;
      }
      status, done := StoreData(baseFileSector, sectorOffset, data, f);
      WrittenOn(g, d0, disk, files[f], sectorOffset, sectorOffset + done, data);
      if status != Success {
        return;
      }
      ghost var stored := disk;
      GrownPrefix(g, d0, files0, disk, files, f);
      OtherFilesStay(g, d0, files0, disk, files, f, h);
      TraversalEnds(g, disk, files, f, sectorOffset);
      var nextByte := (sectorOffset + |data|) % DWORD_RANGE * BYTES_PER_SECTOR % DWORD_RANGE;
      status, e := UpdateDirEntry(dirEntrySector, baseFileSector, Stamp(nextByte, date, time), h, j);
      NotedKeepsGrown(g, d0, files0, stored, disk, files, f);
      WrittenAndNoted(g, d0, stored, disk, files, f, h, j, sectorOffset, data, status, e, Stamp(nextByte, date, time));
      if status == Success {
        NextByteIs(sectorOffset + |data|);
        WriteNoteOf(g, d0, disk, files, f, h, j, sectorOffset, data, e, nextByte, date, time);
      }
      sectorsWritten := if status == Success then |data| else 0;
    }

    /** The part of FatWriteFile between its checks and the directory update. */
    method StoreData(baseFileSector: nat, sectorOffset: nat, data: seq<Sector>, ghost f: nat)
      returns (status: Status, sectorsWritten: nat)
      requires Valid() && f < |files| && files[f] != [] && baseFileSector == FirstSector(g, files[f][0])
      requires data != []
      modifies this
      ensures Valid() && Grown(g, old(disk), old(files), disk, files, f) && f < |files|
      ensures Written(g, old(disk), disk, files[f], sectorOffset, sectorOffset + sectorsWritten, data)
      ensures status == Success ==> sectorsWritten == |data|
      ensures |files[f]| > |old(files)[f]| ==> Sectors(g, files[f]) < sectorOffset + |data| + g.sectorsPerCluster
      ensures Formatted(g, old(disk))
      ensures status == if sectorOffset + |data| <= (|old(files)[f]| + Available(g, old(disk))) * g.sectorsPerCluster then Success
                        else if Overstated(g, old(disk)) then Panic else ClusterInvalid
      ensures status != Success ==> sectorsWritten == RoomFrom(g, old(disk), |old(files)[f]|, sectorOffset)
    {
      hide Formatted, Consistent, Fat, Grown, SameOutsideFat, SectorOfFile, FirstSector, ClusterOf, Sectors, Written,
           Available, Overstated;
      ghost var d0, files0 := disk, files;
      sectorsWritten := 0;
      TraversalEnds(g, d0, files0, f, sectorOffset);
      var currentSector;
      ghost var i;
      status, currentSector, i := Traverse(baseFileSector, sectorOffset, true, f);
      ghost var d1, files1 := disk, files;
      GrownPrefix(g, d0, files0, d1, files1, f);
      WrittenNothing(g, d0, d1, files1, f, sectorOffset, data);
      if status != Success {
        return;
      }
      status, sectorsWritten := WriteClusters(currentSector, sectorOffset, data, f, i);
      GrownTransitive(g, d0, files0, d1, files1, disk, files, f);
      GrownPrefix(g, d1, files1, disk, files, f);
      assert |files[f]| == |files1[f]| ==> files[f] == files1[f];
      WrittenSince(g, d0, d1, disk, files[f], sectorOffset, sectorOffset + sectorsWritten, data);
    }

    /** The round trip: a write succeeds exactly when it should, and what it stored, a read of the
        same range returns. */
    method WriteThenRead(baseFileSector: nat, sectorOffset: nat, dirEntrySector: nat, data: seq<Sector>,
                         buffer: array<Sector>, date: int, time: int, ghost f: nat, ghost h: nat, ghost j: nat)
      returns (written: Status, read: Status, sectorsRead: nat)
      requires Valid() && f < |files| && h < |files| && f != h && j < |files[h]|
      requires files[f] != [] && baseFileSector == FirstSector(g, files[f][0])
      requires dirEntrySector == FirstSector(g, files[h][j])
      requires 0 <= date < 0x1_0000 && 0 <= time < 0x1_0000
      requires |data| <= buffer.Length
      modifies this, buffer
      ensures Valid() && Formatted(g, old(disk))
      ensures written == WriteOutcome(g, old(disk), |old(files)[f]|, baseFileSector, sectorOffset, |data|,
                                      dirEntrySector, old(files)[f][0])
      ensures written == Success ==> read == Success && sectorsRead == |data|
      ensures written == Success ==> buffer[..|data|] == data
    {
      hide Formatted, Consistent, Fat, Grown, SectorOfFile, Noted, FirstSector, ClusterOf, Sectors, Written, Available, Overstated,
           HasEntry, WriteEffect;
      ghost var d0, files0 := disk, files;
      var n;
      ghost var e, e', done;
      written, n, e, done := WriteFile(baseFileSector, sectorOffset, dirEntrySector, data, date, time, f, h, j);
      read, sectorsRead := Unsuccessful, 0;
      if written != Success {
        return;
      }
      GrownPrefix(g, d0, files0, disk, files, f);
      OtherFilesStay(g, d0, files0, disk, files, f, h);
      ghost var d := disk;
      read, sectorsRead, e' := ReadFile(baseFileSector, sectorOffset, dirEntrySector, buffer, |data|, date, f, h, j);
      if data != [] {
        EffectFits(g, d0, d, files, f, h, j, sectorOffset, data, e,
                   Stamp((sectorOffset + |data|) % DWORD_RANGE * BYTES_PER_SECTOR % DWORD_RANGE, date, time));
        ReadBack(g, d0, d, files, f, h, j, sectorOffset, data, e,
                 Stamp((sectorOffset + |data|) % DWORD_RANGE * BYTES_PER_SECTOR % DWORD_RANGE, date, time),
                 read, e', Touch(date), disk);
      }
    }
  }
}
