/** Partition discovery: the MBR, the chain of extended boot records hanging off it, and the two
    passes that first count the partitions and then fill the table allocated for them.
 */
module DiskPartitions {
  import opened Counting

  const DWORD_RANGE := 0x1_0000_0000
  const MBR_NO_OF_PARTITIONS := 4
  const MBR_EXT_PARTITION_NO_OF_ENTRIES := 2
  const MBR_BOOT_SIGNATURE := 0xAA55
  const MBR_STATUS_ACTIVE := 0x80
  const MBR_STATUS_INACTIVE := 0x00
  const MBR_PARTITION_EXTENDED_CHS := 0x5
  const MBR_PARTITION_EXTENDED_LBA := 0xF

  type Dword = x: int | 0 <= x < DWORD_RANGE

  datatype Entry = Entry(status: nat, firstChs: nat, partitionType: nat, lastChs: nat, firstSectorLba: Dword,
                         numberOfSectors: Dword)

  datatype Mbr = Mbr(entries: seq<Entry>, signature: nat)

  /** The disk: what each sector holds if it is read as a boot record. */
  type Disk = f: Dword -> Mbr | forall lba :: |f(lba).entries| == MBR_NO_OF_PARTITIONS
    witness lba => Mbr(seq(MBR_NO_OF_PARTITIONS, i => Entry(0, 0, 0, 0, 0, 0)), 0)

  datatype Partition = Partition(bootable: bool, offsetInDisk: Dword, size: Dword, partitionType: nat)

  /** Overrun is a write behind the table of partitions. */
  datatype Outcome = Success | MbrNotPresent | Panic | Overrun

  // ---------------------------------------------------------------- one boot record

  predicate AllZero(e: Entry) {
    e == Entry(0, 0, 0, 0, 0, 0)
  }

  predicate StatusOk(e: Entry) {
    e.status == MBR_STATUS_ACTIVE || e.status == MBR_STATUS_INACTIVE
  }

  predicate IsExtended(e: Entry) {
    e.partitionType == MBR_PARTITION_EXTENDED_LBA || e.partitionType == MBR_PARTITION_EXTENDED_CHS
  }

  /** Which record is being parsed. `extended` tells an EBR from the MBR; `first` is the LBA of the
      first EBR of the disk. */
  datatype Record = Record(offset: Dword, extended: bool, first: Dword)

  const MASTER := Record(0, false, 0)

  function EntriesToIterateOver(extended: bool): nat {
    if extended then MBR_EXT_PARTITION_NO_OF_ENTRIES else MBR_NO_OF_PARTITIONS
  }

  predicate Ends(e: Entry, extended: bool) {
    (extended && AllZero(e)) || (StatusOk(e) && IsExtended(e))
  }

  /** Where parsing of the record stops: the first entry that ends it, or the number of entries. */
  function StopIndex(disk: Disk, r: Record): (k: nat)
    ensures k <= EntriesToIterateOver(r.extended)
    ensures forall i :: 0 <= i < k ==> !Ends(disk(r.offset).entries[i], r.extended)
    ensures k < EntriesToIterateOver(r.extended) ==> Ends(disk(r.offset).entries[k], r.extended)
  {
    var es := disk(r.offset).entries;
    if Ends(es[0], r.extended) then 0
    else if Ends(es[1], r.extended) then 1
    else if r.extended then 2
    else if Ends(es[2], false) then 2
    else if Ends(es[3], false) then 3
    else 4
  }

  /** A partition lies relative to the record that lists it. */
  function PartitionAt(e: Entry, offset: Dword): Partition {
    Partition(e.status == MBR_STATUS_ACTIVE, (e.firstSectorLba + offset) % DWORD_RANGE, e.numberOfSectors, e.partitionType)
  }

  function Listed(entries: seq<Entry>, offset: Dword): (r: seq<Partition>)
    ensures |r| <= |entries|
  {
    if entries == [] then []
    else
      var front, e := Listed(entries[..|entries| - 1], offset), entries[|entries| - 1];
      if StatusOk(e) then front + [PartitionAt(e, offset)] else front
  }

  predicate Signed(disk: Disk, r: Record) {
    disk(r.offset).signature == MBR_BOOT_SIGNATURE
  }

  function PartitionsIn(disk: Disk, r: Record): seq<Partition> {
    if Signed(disk, r) then Listed(disk(r.offset).entries[..StopIndex(disk, r)], r.offset) else []
  }

  predicate HasLink(disk: Disk, r: Record) {
    && Signed(disk, r) && StopIndex(disk, r) < EntriesToIterateOver(r.extended)
    && !(r.extended && AllZero(disk(r.offset).entries[StopIndex(disk, r)]))
  }

  function LinkEntry(disk: Disk, r: Record): Entry
    requires HasLink(disk, r)
  {
    disk(r.offset).entries[StopIndex(disk, r)]
  }

  /** The next EBR: relative to the first one, which the MBR locates absolutely. */
  function Link(disk: Disk, r: Record): Record
    requires HasLink(disk, r)
  {
    var e := LinkEntry(disk, r);
    Record((e.firstSectorLba + r.first) % DWORD_RANGE, true, if r.extended then r.first else e.firstSectorLba)
  }

  /** The ASSERT at the start of a parse. */
  predicate Consistent(r: Record) {
    r.extended != (r.first == 0)
  }

  // ---------------------------------------------------------------- the whole chain

  /** The records from some record on, each linked to the next; the last has no link or is one
      that the ASSERT rejects. */
  ghost predicate IsChain(disk: Disk, chain: seq<Record>) {
    && chain != []
    && (forall i :: 0 <= i < |chain| - 1 ==> Consistent(chain[i]) && HasLink(disk, chain[i]) && Link(disk, chain[i]) == chain[i + 1])
    && (Consistent(chain[|chain| - 1]) ==> !HasLink(disk, chain[|chain| - 1]))
  }

  function ResultOf(disk: Disk, chain: seq<Record>): Outcome
    requires chain != []
  {
    var last := chain[|chain| - 1];
    if !Consistent(last) then Panic else if !Signed(disk, last) then MbrNotPresent else Success
  }

  function AllPartitions(disk: Disk, chain: seq<Record>): seq<Partition> {
    if chain == [] then []
    else if !Consistent(chain[0]) then []
    else PartitionsIn(disk, chain[0]) + AllPartitions(disk, chain[1..])
  }

  lemma ChainTail(disk: Disk, chain: seq<Record>)
    requires IsChain(disk, chain) && |chain| > 1
    ensures IsChain(disk, chain[1..]) && chain[1] == Link(disk, chain[0])
    ensures ResultOf(disk, chain[1..]) == ResultOf(disk, chain)
  {
  }

  /** A disk has one chain only, so what is found is a function of the disk. */
  lemma {:induction false} ChainIsUnique(disk: Disk, a: seq<Record>, b: seq<Record>)
    requires IsChain(disk, a) && IsChain(disk, b) && a[0] == b[0]
    ensures a == b
    decreases |a|
  {
    if |a| > 1 && |b| > 1 {
      ChainTail(disk, a);
      ChainTail(disk, b);
      ChainIsUnique(disk, a[1..], b[1..]);
      assert a == [a[0]] + a[1..] && b == [b[0]] + b[1..];
    }
  }

  lemma {:induction false} ChainSuffix(disk: Disk, chain: seq<Record>, i: nat)
    requires IsChain(disk, chain) && i < |chain|
    ensures IsChain(disk, chain[i..])
    decreases i
  {
    if i > 0 {
      ChainSuffix(disk, chain, i - 1);
      ChainTail(disk, chain[i - 1..]);
      assert chain[i - 1..][1..] == chain[i..];
    } else {
      assert chain[0..] == chain;
    }
  }

  /** A chain that ends visits no record twice. */
  lemma NoRecordTwice(disk: Disk, chain: seq<Record>, i: nat, j: nat)
    requires IsChain(disk, chain) && i < j < |chain|
    ensures chain[i] != chain[j]
  {
    ChainSuffix(disk, chain, i);
    ChainSuffix(disk, chain, j);
    if chain[i] == chain[j] {
      ChainIsUnique(disk, chain[i..], chain[j..]);
    }
  }

  // ---------------------------------------------------------------- when the chain ends

  /** The record the parse goes on with behind `r`, if it goes on. */
  predicate GoesOn(disk: Disk, r: Record) {
    Consistent(r) && HasLink(disk, r)
  }

  /** The parse visits these records one after the other, from some record on. */
  ghost predicate IsPath(disk: Disk, path: seq<Record>) {
    && path != []
    && forall i :: 0 <= i < |path| - 1 ==> GoesOn(disk, path[i]) && Link(disk, path[i]) == path[i + 1]
  }

  /** Following the links from `r` on comes to an end. */
  ghost predicate Ended(disk: Disk, r: Record) {
    exists chain :: IsChain(disk, chain) && chain[0] == r
  }

  lemma {:induction false} PathIsPrefix(disk: Disk, path: seq<Record>, chain: seq<Record>)
    requires IsPath(disk, path) && IsChain(disk, chain) && path[0] == chain[0]
    ensures path <= chain
    decreases |path|
  {
    if |path| > 1 {
      var front, k := path[..|path| - 1], |path| - 2;
      PathIsPrefix(disk, front, chain);
      assert front[k] == chain[k] == path[k] && GoesOn(disk, path[k]);
      assert Link(disk, path[k]) == path[k + 1];
    }
  }

  ghost function AllRecords(): set<Record> {
    set o: int, x: bool, f: int | 0 <= o < DWORD_RANGE && 0 <= f < DWORD_RANGE :: Record(o, x, f)
  }

  lemma AllAreRecords(path: seq<Record>)
    ensures forall i :: 0 <= i < |path| ==> path[i] in AllRecords()
  {
    forall i | 0 <= i < |path|
      ensures path[i] in AllRecords()
    {
      assert path[i] == Record(path[i].offset, path[i].extended, path[i].first);
    }
  }

  /** From a path that never comes back, the walk goes on to the end of the chain. */
  lemma {:induction false} WalkToEnd(disk: Disk, path: seq<Record>) returns (chain: seq<Record>)
    requires IsPath(disk, path)
    requires forall p :: IsPath(disk, p) && p[0] == path[0] ==> Distinct(p)
    ensures IsChain(disk, chain) && chain[0] == path[0]
    decreases |AllRecords()| - |path|
  {
    hide HasLink, Link, Consistent, AllRecords, Distinct;
    AllAreRecords(path);
    DistinctIsShort(path, AllRecords());
    var last := path[|path| - 1];
    if GoesOn(disk, last) {
      var longer := path + [Link(disk, last)];
      assert IsPath(disk, longer);
      AllAreRecords(longer);
      DistinctIsShort(longer, AllRecords());
      chain := WalkToEnd(disk, longer);
    } else {
      chain := path;
    }
  }

  /** The recursion over the boot records ends iff it comes to no record a second time. */
  lemma EndsIffNoRecordTwice(disk: Disk, r: Record)
    ensures Ended(disk, r) <==> forall path :: IsPath(disk, path) && path[0] == r ==> Distinct(path)
  {
    if Ended(disk, r) {
      var chain :| IsChain(disk, chain) && chain[0] == r;
      forall path, i, j | IsPath(disk, path) && path[0] == r && 0 <= i < j < |path|
        ensures path[i] != path[j]
      {
        PathIsPrefix(disk, path, chain);
        NoRecordTwice(disk, chain, i, j);
      }
    } else if forall path :: IsPath(disk, path) && path[0] == r ==> Distinct(path) {
      assert IsPath(disk, [r]);
      var chain := WalkToEnd(disk, [r]);
    }
  }

  /** A disk whose MBR links to sector 1, and the record there to itself. */
  function CyclicDisk(): Disk {
    (lba: Dword) => CyclicRecord(lba)
  }

  function CyclicRecord(lba: Dword): (r: Mbr)
    ensures r.signature == MBR_BOOT_SIGNATURE && |r.entries| == MBR_NO_OF_PARTITIONS
    ensures r.entries[0] == Entry(0, 0, MBR_PARTITION_EXTENDED_LBA, 0, if lba == 0 then 1 else 0, 1)
  {
    var zero := Entry(0, 0, 0, 0, 0, 0);
    Mbr([Entry(0, 0, MBR_PARTITION_EXTENDED_LBA, 0, if lba == 0 then 1 else 0, 1), zero, zero, zero], MBR_BOOT_SIGNATURE)
  }

  lemma CyclicLinks()
    ensures forall r: Record :: r == MASTER || r == Record(1, true, 1) ==>
      GoesOn(CyclicDisk(), r) && Link(CyclicDisk(), r) == Record(1, true, 1)
  {
    hide CyclicRecord;
    forall r: Record | r == MASTER || r == Record(1, true, 1)
      ensures GoesOn(CyclicDisk(), r) && Link(CyclicDisk(), r) == Record(1, true, 1)
    {
      assert CyclicDisk()(r.offset) == CyclicRecord(r.offset);
      assert StopIndex(CyclicDisk(), r) == 0;
    }
  }

  lemma CyclicDiskNeverEnds()
    ensures !Ended(CyclicDisk(), MASTER)
  {
    hide GoesOn, Link, CyclicDisk, Ended;
    var self := Record(1, true, 1);
    var path := [MASTER, self, self];
    CyclicLinks();
    assert IsPath(CyclicDisk(), path) && path[1] == path[2];
    EndsIffNoRecordTwice(CyclicDisk(), MASTER);
  }

  /** All EBRs measure their links from the same place: the first EBR. */
  lemma {:induction false} EbrsShareBase(disk: Disk, chain: seq<Record>, i: nat)
    requires IsChain(disk, chain) && chain[0] == Record(0, false, 0) && 1 <= i < |chain|
    ensures chain[i].extended && chain[i].first == chain[1].offset == chain[1].first
    ensures HasLink(disk, chain[i - 1])
    ensures var e := LinkEntry(disk, chain[i - 1]);
      chain[i].offset == if i == 1 then e.firstSectorLba else (e.firstSectorLba + chain[1].offset) % DWORD_RANGE
    decreases i
  {
    assert Link(disk, chain[i - 1]) == chain[i];
    if i > 1 {
      EbrsShareBase(disk, chain, i - 1);
    }
  }

  /** The parse panics exactly when the MBR's extended entry says LBA 0. */
  lemma PanicsOnlyOnZeroLink(disk: Disk, chain: seq<Record>)
    requires IsChain(disk, chain) && chain[0] == Record(0, false, 0)
    ensures ResultOf(disk, chain) == Panic <==>
      HasLink(disk, MASTER) && LinkEntry(disk, MASTER).firstSectorLba == 0
    ensures ResultOf(disk, chain) == MbrNotPresent <==>
      ResultOf(disk, chain) != Panic && disk(chain[|chain| - 1].offset).signature != 0xAA55
    ensures ResultOf(disk, chain) != Overrun
  {
    var n := |chain|;
    if n > 1 {
      EbrsShareBase(disk, chain, n - 1);
      assert Link(disk, chain[0]) == chain[1];
      assert n > 2 ==> Consistent(chain[1]);
    }
  }

  /** An entry behind which a record lists nothing more, by its bytes: an empty one in an EBR, or one with
      status 0x80 or 0 and the type of an extended partition. */
  predicate IsLastEntry(e: Entry, extended: bool) {
    || (extended && e.status == 0 && e.firstChs == 0 && e.partitionType == 0 && e.lastChs == 0
        && e.firstSectorLba == 0 && e.numberOfSectors == 0)
    || ((e.status == 0x80 || e.status == 0) && (e.partitionType == 0x05 || e.partitionType == 0x0F))
  }

  /** Entry `k` of a record describes partition `p`: the record is signed, the entry is one of its first 4,
      or first 2 in an EBR, and not behind nor itself the last one; its status is 0x80, for a bootable
      partition, or 0; and the partition's place is counted from the record's own sector. */
  predicate Describes(disk: Disk, r: Record, k: nat, p: Partition) {
    && disk(r.offset).signature == 0xAA55 && k < (if r.extended then 2 else 4)
    && (forall i :: 0 <= i <= k ==> !IsLastEntry(disk(r.offset).entries[i], r.extended))
    && var e := disk(r.offset).entries[k];
       (e.status == 0x80 || e.status == 0)
       && p.bootable == (e.status == 0x80) && p.size == e.numberOfSectors && p.partitionType == e.partitionType
       && (p.offsetInDisk == r.offset + e.firstSectorLba || p.offsetInDisk == r.offset + e.firstSectorLba - 0x1_0000_0000)
  }

  lemma EndsIsLastEntry(e: Entry, extended: bool)
    ensures Ends(e, extended) <==> IsLastEntry(e, extended)
  {
  }

  /** The entries before the one at which the parse stops. */
  lemma BeforeStop(disk: Disk, r: Record, k: nat)
    ensures k < StopIndex(disk, r) <==>
      k < (if r.extended then 2 else 4) && forall i :: 0 <= i <= k ==> !IsLastEntry(disk(r.offset).entries[i], r.extended)
  {
    var stop, es := StopIndex(disk, r), disk(r.offset).entries;
    forall i | 0 <= i < 4
      ensures Ends(es[i], r.extended) <==> IsLastEntry(es[i], r.extended)
    {
      EndsIsLastEntry(es[i], r.extended);
    }
    hide StopIndex, Ends, IsLastEntry;
    if stop <= k < EntriesToIterateOver(r.extended) {
      assert IsLastEntry(es[stop], r.extended);
    }
  }

  lemma DescribesOne(disk: Disk, r: Record, k: nat, p: Partition)
    requires Signed(disk, r)
    ensures Describes(disk, r, k, p) <==>
      k < StopIndex(disk, r) && StatusOk(disk(r.offset).entries[k]) && p == PartitionAt(disk(r.offset).entries[k], r.offset)
  {
    BeforeStop(disk, r, k);
    hide StopIndex, IsLastEntry;
  }

  /** Where a record links to: its last entry, if that is not an empty one, counted from the first EBR. */
  lemma LinkIs(disk: Disk, r: Record, k: nat)
    requires k < (if r.extended then 2 else 4) && IsLastEntry(disk(r.offset).entries[k], r.extended)
    requires forall i :: 0 <= i < k ==> !IsLastEntry(disk(r.offset).entries[i], r.extended)
    ensures var e := disk(r.offset).entries[k];
      && (HasLink(disk, r) <==> disk(r.offset).signature == 0xAA55 && !(r.extended && e == Entry(0, 0, 0, 0, 0, 0)))
      && (HasLink(disk, r) ==>
            && LinkEntry(disk, r) == e
            && Link(disk, r).offset == (e.firstSectorLba + r.first) % 0x1_0000_0000 && Link(disk, r).extended
            && Link(disk, r).first == if r.extended then r.first else e.firstSectorLba)
  {
    BeforeStop(disk, r, k);
    if k > 0 {
      BeforeStop(disk, r, k - 1);
    }
    hide StopIndex, IsLastEntry;
  }

  lemma NoLastEntryNoLink(disk: Disk, r: Record)
    requires forall k :: 0 <= k < (if r.extended then 2 else 4) ==> !IsLastEntry(disk(r.offset).entries[k], r.extended)
    ensures !HasLink(disk, r)
  {
    BeforeStop(disk, r, if r.extended then 1 else 3);
    hide StopIndex, IsLastEntry;
  }

  lemma {:induction false} ListedAreDescribed(disk: Disk, r: Record, n: nat, p: Partition)
    requires Signed(disk, r) && n <= StopIndex(disk, r)
    ensures p in Listed(disk(r.offset).entries[..n], r.offset) <==> exists k: nat :: k < n && Describes(disk, r, k, p)
  {
    hide StopIndex, Describes, PartitionAt, StatusOk;
    if n > 0 {
      var es := disk(r.offset).entries;
      ListedAreDescribed(disk, r, n - 1, p);
      DescribesOne(disk, r, n - 1, p);
      assert es[..n][..n - 1] == es[..n - 1];
      if exists k: nat :: k < n && Describes(disk, r, k, p) {
        var k: nat :| k < n && Describes(disk, r, k, p);
        assert k == n - 1 || k < n - 1;
      }
    }
  }

  /** What is found on a disk: exactly the partitions that some record of the chain describes. */
  lemma {:induction false} FoundIffDescribed(disk: Disk, chain: seq<Record>, p: Partition)
    requires IsChain(disk, chain)
    ensures p in AllPartitions(disk, chain) <==>
      exists i, k: nat :: 0 <= i < |chain| && Consistent(chain[i]) && Describes(disk, chain[i], k, p)
    decreases |chain|
  {
    var r := chain[0];
    if Signed(disk, r) {
      ListedAreDescribed(disk, r, StopIndex(disk, r), p);
    }
    hide StopIndex, Describes, Link, HasLink, PartitionsIn;
    RecordDescribes(disk, r, p);
    if |chain| > 1 {
      ChainTail(disk, chain);
      FoundIffDescribed(disk, chain[1..], p);
      assert forall i :: 0 <= i < |chain| - 1 ==> chain[1..][i] == chain[i + 1];
    } else {
      assert AllPartitions(disk, chain[1..]) == [];
    }
  }

  lemma RecordDescribes(disk: Disk, r: Record, p: Partition)
    ensures p in PartitionsIn(disk, r) <==> exists k: nat :: Describes(disk, r, k, p)
  {
    if Signed(disk, r) {
      ListedAreDescribed(disk, r, StopIndex(disk, r), p);
      forall k: nat | Describes(disk, r, k, p)
        ensures k < StopIndex(disk, r)
      {
        DescribesOne(disk, r, k, p);
      }
      hide StopIndex, Describes;
    }
  }

  // ---------------------------------------------------------------- the two passes

  lemma FirstOfChain(disk: Disk, chain: seq<Record>)
    requires IsChain(disk, chain)
    ensures var r, all := chain[0], AllPartitions(disk, chain);
      && (!Consistent(r) ==> ResultOf(disk, chain) == Panic && all == [])
      && (Consistent(r) && !Signed(disk, r) ==> ResultOf(disk, chain) == MbrNotPresent && all == [])
      && (Consistent(r) && Signed(disk, r) && !HasLink(disk, r) ==> ResultOf(disk, chain) == Success && all == PartitionsIn(disk, r))
      && (Consistent(r) && HasLink(disk, r) ==>
            && |chain| > 1 && chain[1] == Link(disk, r) && IsChain(disk, chain[1..])
            && ResultOf(disk, chain) == ResultOf(disk, chain[1..])
            && all == PartitionsIn(disk, r) + AllPartitions(disk, chain[1..]))
  {
    if |chain| > 1 {
      ChainTail(disk, chain);
    } else {
      assert AllPartitions(disk, chain[1..]) == [];
    }
  }

  /** What the entry at `k` means for the parse that has reached it. */
  lemma EntryReached(disk: Disk, r: Record, k: nat)
    requires Signed(disk, r) && k <= StopIndex(disk, r)
    ensures k == EntriesToIterateOver(r.extended) ==>
      !HasLink(disk, r) && PartitionsIn(disk, r) == Listed(disk(r.offset).entries[..k], r.offset)
    ensures k < EntriesToIterateOver(r.extended) ==>
      var e := disk(r.offset).entries[k];
      && (r.extended && AllZero(e) ==> !HasLink(disk, r))
      && (!(r.extended && AllZero(e)) && StatusOk(e) && IsExtended(e) ==>
            HasLink(disk, r) && LinkEntry(disk, r) == e)
      && if Ends(e, r.extended) then PartitionsIn(disk, r) == Listed(disk(r.offset).entries[..k], r.offset)
         else k < StopIndex(disk, r)
  {
    var stop := StopIndex(disk, r);
    hide StopIndex;
  }

  lemma {:induction false} ListedGrows(entries: seq<Entry>, i: nat, j: nat, offset: Dword)
    requires i <= j <= |entries|
    ensures |Listed(entries[..i], offset)| <= |Listed(entries[..j], offset)|
    decreases j
  {
    if i < j {
      assert entries[..j][..j - 1] == entries[..j - 1];
      ListedGrows(entries, i, j - 1, offset);
    }
  }

  lemma ListedStep(disk: Disk, r: Record, k: nat)
    requires Signed(disk, r) && k < StopIndex(disk, r)
    ensures var es := disk(r.offset).entries;
      && Listed(es[..k + 1], r.offset) == Listed(es[..k], r.offset) + (if StatusOk(es[k]) then [PartitionAt(es[k], r.offset)] else [])
      && |Listed(es[..k + 1], r.offset)| <= |PartitionsIn(disk, r)|
  {
    var es := disk(r.offset).entries;
    assert es[..k + 1][..k] == es[..k];
    ListedGrows(es, k + 1, StopIndex(disk, r), r.offset);
  }

  /** The first `n` entries of the table. */
  function Filled(layout: array<Partition>, n: nat): seq<Partition>
    reads layout
  {
    if n <= layout.Length then layout[..n] else []
  }

  datatype Next = NoLink | To(r: Record)

  function NextOf(disk: Disk, r: Record): Next {
    if HasLink(disk, r) then To(Link(disk, r)) else NoLink
  }

  /** The loop over the entries of one record. It ends at the first entry that has to be the last,
      and hands back where an extended one points. */
  method ParseRecord(disk: Disk, r: Record, count: nat, layout: array?<Partition>)
    returns (overrun: bool, partitionCount: nat, next: Next)
    requires Signed(disk, r)
    requires layout != null ==> count <= layout.Length
    modifies layout
    ensures overrun <==> layout != null && count + |PartitionsIn(disk, r)| > layout.Length
    ensures !overrun ==> partitionCount == count + |PartitionsIn(disk, r)| && next == NextOf(disk, r)
    ensures !overrun && layout != null ==>
      Filled(layout, partitionCount) == old(Filled(layout, count)) + PartitionsIn(disk, r)
  {
    hide PartitionsIn, HasLink, LinkEntry, Listed, Ends, StatusOk, IsExtended, AllZero, StopIndex;
    overrun, partitionCount, next := false, count, NoLink;
    var mbr := disk(r.offset);
    NothingListed(mbr.entries, r.offset);
    for k := 0 to EntriesToIterateOver(r.extended)
      invariant k <= StopIndex(disk, r)
      invariant |Listed(mbr.entries[..k], r.offset)| <= |PartitionsIn(disk, r)|
      invariant partitionCount == count + |Listed(mbr.entries[..k], r.offset)|
      invariant layout != null ==>
        partitionCount <= layout.Length
        && layout[..partitionCount] == old(layout[..count]) + Listed(mbr.entries[..k], r.offset)
    {
      var e := mbr.entries[k];
      EntryReached(disk, r, k);
      EndsMeans(e, r.extended);
      if r.extended && AllZero(e) {
        return false, partitionCount, NoLink;
      }
      if !StatusOk(e) {
        ListedStep(disk, r, k);
        continue;
      }
      if IsExtended(e) {
        var first := if r.extended then r.first else e.firstSectorLba;
        return false, partitionCount, To(Record((e.firstSectorLba + r.first) % DWORD_RANGE, true, first));
      }
      ListedStep(disk, r, k);
      if layout != null {
        if partitionCount == layout.Length {
          return true, partitionCount, NoLink;
        }
        layout[partitionCount] := Partition(MBR_STATUS_ACTIVE == e.status, (e.firstSectorLba + r.offset) % DWORD_RANGE,
                                            e.numberOfSectors, e.partitionType);
      }
      partitionCount := partitionCount + 1;
    }
    EntryReached(disk, r, EntriesToIterateOver(r.extended));
  }

  /** _DiskRetrievePartitionsFromDiskStartingAtOffset. Without a table it only counts. `chain` is
      what makes the recursion end. */
  method RetrieveStartingAtOffset(disk: Disk, r: Record, count: nat, layout: array?<Partition>, ghost chain: seq<Record>)
    returns (outcome: Outcome, partitionCount: nat)
    requires chain != [] && chain[0] == r && IsChain(disk, chain)
    requires layout != null ==> count <= layout.Length
    modifies layout
    ensures outcome == if layout != null && count + |AllPartitions(disk, chain)| > layout.Length then Overrun
                       else ResultOf(disk, chain)
    ensures outcome != Overrun ==> partitionCount == count + |AllPartitions(disk, chain)|
    ensures outcome != Overrun && layout != null ==>
      Filled(layout, partitionCount) == old(Filled(layout, count)) + AllPartitions(disk, chain)
    decreases |chain|
  {
    hide IsChain, ResultOf, AllPartitions, PartitionsIn, HasLink, LinkEntry, Link, StopIndex, Filled;
    FirstOfChain(disk, chain);
    partitionCount := count;
    if r.extended == (r.first == 0) {
      return Panic, partitionCount;
    }
    if MBR_BOOT_SIGNATURE != disk(r.offset).signature {
      return MbrNotPresent, partitionCount;
    }
    assert Consistent(r) && Signed(disk, r);
    hide Consistent, Signed;
    var overrun, next;
    overrun, partitionCount, next := ParseRecord(disk, r, count, layout);
    if overrun {
      return Overrun, partitionCount;
    }
    match next {
      case NoLink =>
        outcome := Success;
      case To(following) =>
        outcome, partitionCount := RetrieveStartingAtOffset(disk, following, partitionCount, layout, chain[1..]);
    }
  }

  lemma NothingListed(entries: seq<Entry>, offset: Dword)
    ensures Listed(entries[..0], offset) == []
  {
  }

  lemma EndsMeans(e: Entry, extended: bool)
    ensures Ends(e, extended) <==> (extended && AllZero(e)) || (StatusOk(e) && IsExtended(e))
  {
  }

  lemma FilledNone(table: array<Partition>)
    ensures Filled(table, 0) == []
  {
  }

  lemma FilledWhole(table: array<Partition>)
    ensures Filled(table, table.Length) == table[..]
  {
  }

  const LAYOUT_SIZE := 8                      // sizeof(DISK_LAYOUT_INFORMATION)
  const PARTITION_SIZE := 24                  // sizeof(PARTITION_INFORMATION)

  /** The bytes the table needs; their number is computed in a DWORD. */
  function TableSize(count: nat): nat {
    LAYOUT_SIZE + count * PARTITION_SIZE
  }

  /** How many partitions the memory that is asked for has room for. */
  function Capacity(count: nat): (r: nat) {
    var structureSize := TableSize(count) % DWORD_RANGE;
    if structureSize < LAYOUT_SIZE then 0 else (structureSize - LAYOUT_SIZE) / PARTITION_SIZE
  }

  /** Enough for all of them iff the size fits a DWORD. */
  lemma CapacitySuffices(count: nat)
    ensures Capacity(count) >= count <==> 8 + 24 * count <= 0xFFFF_FFFF
    ensures 8 + 24 * count <= 0xFFFF_FFFF ==> Capacity(count) == count
  {
  }

  /** _DiskRetrievePartitionsFromDisk: counts, allocates, fills. The count of the first pass is
      exactly what the second one writes; so the table is filled to the brim, and overrun iff its size
      does not fit a DWORD. */
  method RetrievePartitions(disk: Disk, ghost chain: seq<Record>) returns (outcome: Outcome, layout: array?<Partition>)
    requires IsChain(disk, chain) && chain[0] == Record(0, false, 0)
    ensures outcome == if ResultOf(disk, chain) == Success && 8 + 24 * |AllPartitions(disk, chain)| > 0xFFFF_FFFF then Overrun
                       else ResultOf(disk, chain)
    ensures layout != null <==> outcome == Success
    ensures layout != null ==> fresh(layout) && layout[..] == AllPartitions(disk, chain)
  {
    assert chain != [];
    hide AllPartitions, IsChain, Filled, Capacity, TableSize;
    layout := null;
    var partitionCount;
    NoOverrunResult(disk, chain);
    hide ResultOf;
    outcome, partitionCount := RetrieveStartingAtOffset(disk, MASTER, 0, null, chain);
    if outcome != Success {
      return;
    }
    CapacitySuffices(partitionCount);
    var table := new Partition[Capacity(partitionCount)](_ => Partition(false, 0, 0, 0));
    FilledNone(table);
    outcome, partitionCount := RetrieveStartingAtOffset(disk, MASTER, 0, table, chain);
    if outcome != Success {
      return;
    }
    FilledWhole(table);
    layout := table;
  }

  lemma NoOverrunResult(disk: Disk, chain: seq<Record>)
    requires chain != []
    ensures ResultOf(disk, chain) != Overrun
  {
  }
}
