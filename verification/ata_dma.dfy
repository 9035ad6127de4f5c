/** Building the table of physical region descriptors for a DMA transfer from the physical
    pieces of a buffer.
 */
module AtaDma {
  import opened Arithmetic

  const DWORD_RANGE := 0x1_0000_0000
  const WORD_RANGE := 0x1_0000
  const SECTOR_SIZE := 512
  const ATA_DMA_MAX_PHYSICAL_LEN := 0xFFFF
  const ATA_DMA_PHYSICAL_BOUNDARY := 0x1_0000
  const ATA_DMA_MAX_PHYSICAL_ADDRESS := 0xFFFF_FFFF
  const ATA_DMA_ALIGNMENT := 4
  const PRD_ENTRY_SIZE := 8                   // sizeof(PRD_ENTRY)
  const PAGE_SIZE := 0x1000
  const QWORD_RANGE := 0x1_0000_0000_0000_0000

  /** A physically contiguous piece of the buffer (MDL_TRANSLATION_PAIR). */
  datatype Pair = Pair(address: nat, bytes: nat)

  datatype PrdEntry = PrdEntry(physicalAddress: nat, byteCount: nat, lastEntry: bool)

  datatype Status = Success | AddressTooHigh | AlignmentError | SpanTooLarge

  datatype Outcome = Done | Failed(status: Status) | Panic

  // ---------------------------------------------------------------- what descriptors mean

  function Region(address: nat, n: nat): (r: seq<nat>)
    ensures |r| == n && forall i :: 0 <= i < n ==> r[i] == address + i
  {
    seq(n, i => address + i)
  }

  /** For the controller a byte count of 0 means 64 KB. */
  function EntryLength(e: PrdEntry): nat {
    if e.byteCount == 0 then WORD_RANGE else e.byteCount
  }

  /** The physical addresses the controller goes through. */
  function DeviceBytes(entries: seq<PrdEntry>): seq<nat> {
    if entries == [] then []
    else
      var e := entries[|entries| - 1];
      DeviceBytes(entries[..|entries| - 1]) + Region(e.physicalAddress, EntryLength(e))
  }

  /** The physical addresses of a list of pieces. */
  function BufferBytes(pieces: seq<Pair>): seq<nat> {
    if pieces == [] then []
    else
      var p := pieces[|pieces| - 1];
      BufferBytes(pieces[..|pieces| - 1]) + Region(p.address, p.bytes)
  }

  /** A run of bytes that stays inside one 64 KB block. */
  predicate InOneBlock(address: nat, n: nat) {
    n > 0 && address / ATA_DMA_PHYSICAL_BOUNDARY == (address + n - 1) / ATA_DMA_PHYSICAL_BOUNDARY
  }

  predicate EntryOk(e: PrdEntry) {
    && e.physicalAddress < DWORD_RANGE && 0 < e.byteCount < WORD_RANGE
    && InOneBlock(e.physicalAddress, e.byteCount)
  }

  // ---------------------------------------------------------------- the table on values

  /** What is still to be transferred after these pairs. */
  function Left(pairs: seq<Pair>, total: nat): (r: nat)
    ensures r <= total
  {
    if pairs == [] then total
    else
      var left := Left(pairs[..|pairs| - 1], total);
      left - Min(pairs[|pairs| - 1].bytes, left)
  }

  /** The part of each pair that belongs to the transfer. */
  function Pieces(pairs: seq<Pair>, total: nat): (r: seq<Pair>)
    ensures |r| == |pairs|
  {
    if pairs == [] then []
    else
      var front, p := pairs[..|pairs| - 1], pairs[|pairs| - 1];
      Pieces(front, total) + [Pair(p.address, Min(p.bytes, Left(front, total)))]
  }

  /** One descriptor, or two if the piece crosses a 64 KB boundary, in 32- and 16-bit arithmetic. */
  function EntriesOf(p: Pair): (r: seq<PrdEntry>)
    ensures 1 <= |r| <= 2
  {
    if InOneBlock(p.address, p.bytes) || (p.bytes == 0 && p.address % ATA_DMA_PHYSICAL_BOUNDARY != 0) then
      [PrdEntry(p.address % DWORD_RANGE, p.bytes % WORD_RANGE, false)]
    else
      var first := (ATA_DMA_PHYSICAL_BOUNDARY - p.address % ATA_DMA_PHYSICAL_BOUNDARY) % WORD_RANGE;
      [PrdEntry(p.address % DWORD_RANGE, first, false),
       PrdEntry((p.address + first) % DWORD_RANGE, (p.bytes - first) % WORD_RANGE, false)]
  }

  function Entries(pieces: seq<Pair>): (r: seq<PrdEntry>)
    ensures |pieces| <= |r| <= 2 * |pieces|
  {
    if pieces == [] then []
    else Entries(pieces[..|pieces| - 1]) + EntriesOf(pieces[|pieces| - 1])
  }

  function MarkLast(entries: seq<PrdEntry>): seq<PrdEntry>
    requires entries != []
  {
    entries[|entries| - 1 := entries[|entries| - 1].(lastEntry := true)]
  }

  function Validated(p: Pair): Status {
    if p.address > ATA_DMA_MAX_PHYSICAL_ADDRESS then AddressTooHigh
    else if p.address % ATA_DMA_ALIGNMENT != 0 then AlignmentError
    else if p.bytes > ATA_DMA_MAX_PHYSICAL_LEN then SpanTooLarge
    else if p.bytes % ATA_DMA_ALIGNMENT != 0 then AlignmentError
    else Success
  }

  /** The status of the first pair that is refused. */
  function FirstError(pairs: seq<Pair>): Status {
    if pairs == [] then Success
    else
      var earlier := FirstError(pairs[..|pairs| - 1]);
      if earlier != Success then earlier else Validated(pairs[|pairs| - 1])
  }

  /** The ASSERT that the table does not cross a page: two descriptors for each of `n` pairs, at
      virtual address `tableVa`. */
  predicate TableInOnePage(tableVa: nat, n: nat) {
    n > 0 && tableVa / PAGE_SIZE == (tableVa + 2 * n * PRD_ENTRY_SIZE - 1) / PAGE_SIZE
  }

  function Expected(pairs: seq<Pair>, total: nat, tableVa: nat, prdtPa: nat): Outcome {
    if total == 0 || !TableInOnePage(tableVa, |pairs|) then Panic
    else if FirstError(pairs) != Success then Failed(FirstError(pairs))
    else if Left(pairs, total) != 0 || prdtPa == 0 then Panic
    else if prdtPa >= DWORD_RANGE then Failed(AddressTooHigh)
    else Done
  }

  /** No pair is refused iff all of them are in range and aligned. */
  lemma {:induction false} NoErrorIff(pairs: seq<Pair>)
    ensures FirstError(pairs) == Success <==>
      forall p :: p in pairs ==>
        p.address < 0x1_0000_0000 && p.bytes < 0x1_0000 && p.address % 4 == 0 && p.bytes % 4 == 0
  {
    if pairs != [] {
      var front, last := pairs[..|pairs| - 1], pairs[|pairs| - 1];
      NoErrorIff(front);
      assert forall p :: p in pairs <==> p in front || p == last;
    }
  }

  /** When the transfer is started, and when the table's own address is refused, in the numbers given. */
  lemma DoneIff(pairs: seq<Pair>, sectorCount: nat, tableVa: nat, prdtPa: nat)
    ensures var usable :=
        && 0 < sectorCount && 0 < |pairs|
        && tableVa / 0x1000 == (tableVa + 16 * |pairs| - 1) / 0x1000
        && (forall p :: p in pairs ==>
              p.address < 0x1_0000_0000 && p.bytes < 0x1_0000 && p.address % 4 == 0 && p.bytes % 4 == 0)
        && TotalBytes(pairs) >= 512 * sectorCount;
            var r := Expected(pairs, sectorCount * SECTOR_SIZE, tableVa, prdtPa);
      && (r == Done <==> usable && 0 < prdtPa < 0x1_0000_0000)
      && (usable && prdtPa >= 0x1_0000_0000 ==> r == Failed(AddressTooHigh))
      && (usable && prdtPa == 0 ==> r == Panic)
  {
    hide FirstError, Left, TotalBytes;
    NoErrorIff(pairs);
    LeftIsShortfall(pairs, sectorCount * SECTOR_SIZE);
  }

  /** Otherwise the first pair that is refused gives the status: its address is looked at before its
      size, and the alignment of each right after. */
  lemma RefusalIs(pairs: seq<Pair>, sectorCount: nat, tableVa: nat, prdtPa: nat, i: nat)
    requires 0 < sectorCount && i < |pairs| && tableVa / 0x1000 == (tableVa + 16 * |pairs| - 1) / 0x1000
    requires forall p :: p in pairs[..i] ==>
      p.address < 0x1_0000_0000 && p.bytes < 0x1_0000 && p.address % 4 == 0 && p.bytes % 4 == 0
    ensures var r := Expected(pairs, sectorCount * SECTOR_SIZE, tableVa, prdtPa);
      && (pairs[i].address >= 0x1_0000_0000 ==> r == Failed(AddressTooHigh))
      && (pairs[i].address < 0x1_0000_0000 ==>
            && (pairs[i].address % 4 != 0 ==> r == Failed(AlignmentError))
            && (pairs[i].address % 4 == 0 && pairs[i].bytes >= 0x1_0000 ==> r == Failed(SpanTooLarge))
            && (pairs[i].address % 4 == 0 && pairs[i].bytes < 0x1_0000 && pairs[i].bytes % 4 != 0 ==>
                  r == Failed(AlignmentError)))
  {
    hide FirstError;
    FirstErrorAt(pairs, i);
    hide Left, TotalBytes;
    assert TableInOnePage(tableVa, |pairs|);
    assert Validated(pairs[i]) != Success ==>
      Expected(pairs, sectorCount * SECTOR_SIZE, tableVa, prdtPa) == Failed(Validated(pairs[i]));
    hide Expected, TableInOnePage;
  }

  lemma FirstErrorAt(pairs: seq<Pair>, i: nat)
    requires i < |pairs|
    requires forall p :: p in pairs[..i] ==>
      p.address < 0x1_0000_0000 && p.bytes < 0x1_0000 && p.address % 4 == 0 && p.bytes % 4 == 0
    ensures Validated(pairs[i]) != Success ==> FirstError(pairs) == Validated(pairs[i])
  {
    hide FirstError, Validated;
    NoErrorIff(pairs[..i]);
    OneMorePair(pairs, i, 0);
    if Validated(pairs[i]) != Success {
      ErrorIsFirst(pairs, i + 1);
    }
  }

  // ---------------------------------------------------------------- tables that are too long

  const MAX_PAIRS := 256

  /** No place for the table passes the ASSERT with more than 256 pairs, so such a transfer always
      panics; at the start of a page, the table of up to 256 pairs always passes it. */
  lemma TablePassesUpTo256(tableVa: nat, n: nat)
    requires n > 0
    ensures TableInOnePage(tableVa, n) ==> n <= MAX_PAIRS
    ensures tableVa % PAGE_SIZE == 0 ==> (TableInOnePage(tableVa, n) <==> n <= MAX_PAIRS)
  {
    var last := tableVa + 2 * n * PRD_ENTRY_SIZE - 1;
    assert tableVa == tableVa / PAGE_SIZE * PAGE_SIZE + tableVa % PAGE_SIZE;
    assert last == last / PAGE_SIZE * PAGE_SIZE + last % PAGE_SIZE;
  }

  lemma LongTablesPanic(pairs: seq<Pair>, total: nat, tableVa: nat, prdtPa: nat)
    requires |pairs| > MAX_PAIRS
    ensures Expected(pairs, total, tableVa, prdtPa) == Panic
  {
    TablePassesUpTo256(tableVa, |pairs|);
  }

  /** A buffer of 300 pages, no two of them next to each other in physical memory. */
  function FragmentedBuffer(): (r: seq<Pair>)
    ensures |r| == 300 && forall i :: 0 <= i < 300 ==> r[i] == Pair(2 * PAGE_SIZE * (i + 1), PAGE_SIZE)
  {
    seq(300, i requires 0 <= i < 300 => Pair(2 * PAGE_SIZE * (i + 1), PAGE_SIZE))
  }

  lemma {:induction false} PagesAddUp(pairs: seq<Pair>)
    requires forall p :: p in pairs ==> p.bytes == PAGE_SIZE && Validated(p) == Success
    ensures TotalBytes(pairs) == |pairs| * PAGE_SIZE && FirstError(pairs) == Success
  {
    if pairs != [] {
      PagesAddUp(pairs[..|pairs| - 1]);
    }
  }

  /** An ordinary request: 2400 sectors, in pages that all pass the validation and hold exactly
      that much, wherever the table is. */
  lemma FragmentedBufferPanics(tableVa: nat, prdtPa: nat)
    ensures FirstError(FragmentedBuffer()) == Success && TotalBytes(FragmentedBuffer()) == 2400 * SECTOR_SIZE
    ensures Expected(FragmentedBuffer(), 2400 * SECTOR_SIZE, tableVa, prdtPa) == Panic
  {
    hide FragmentedBuffer;
    PagesAddUp(FragmentedBuffer());
    LongTablesPanic(FragmentedBuffer(), 2400 * SECTOR_SIZE, tableVa, prdtPa);
  }

  // ---------------------------------------------------------------- what the table denotes

  predicate BelowFourGb(p: Pair) {
    p.address + p.bytes <= DWORD_RANGE
  }

  predicate Acceptable(p: Pair) {
    p.address < DWORD_RANGE && p.bytes < WORD_RANGE
  }

  /** A piece that crosses a block boundary, cut there. */
  lemma CutAtBoundary(address: nat, n: nat)
    requires 0 < n < WORD_RANGE && !InOneBlock(address, n)
    ensures var first := ATA_DMA_PHYSICAL_BOUNDARY - address % ATA_DMA_PHYSICAL_BOUNDARY;
      && 0 < first < n && first < WORD_RANGE
      && InOneBlock(address, first)
      && (address + first) % ATA_DMA_PHYSICAL_BOUNDARY == 0
      && forall start: nat :: start % ATA_DMA_PHYSICAL_BOUNDARY == 0 ==> InOneBlock(start, n - first)
  {
  }

  lemma EntriesOfOk(p: Pair)
    requires Acceptable(p) && p.bytes > 0
    ensures forall e :: e in EntriesOf(p) ==> EntryOk(e)
    ensures |DeviceBytes(EntriesOf(p))| == p.bytes
    ensures DeviceBytes(EntriesOf(p)) == Region(p.address, p.bytes) <==> BelowFourGb(p)
  {
    var es := EntriesOf(p);
    if InOneBlock(p.address, p.bytes) {
      assert es == [es[0]];
      hide EntriesOf;
      DeviceBytesOfOne(es[0]);
      BlockEndsBelow(p.address, p.bytes);
    } else {
      CutAtBoundary(p.address, p.bytes);
      CutPieceOk(p);
    }
  }

  lemma BlockEndsBelow(address: nat, n: nat)
    requires address < DWORD_RANGE && InOneBlock(address, n)
    ensures address + n <= DWORD_RANGE
  {
  }

  /** The two descriptors of a piece that crosses a boundary. */
  lemma CutEntries(p: Pair) returns (first: nat, second: nat)
    requires Acceptable(p) && p.bytes > 0 && !InOneBlock(p.address, p.bytes)
    ensures 0 < first < p.bytes && second == (p.address + first) % DWORD_RANGE
    ensures EntriesOf(p) == [PrdEntry(p.address, first, false), PrdEntry(second, p.bytes - first, false)]
    ensures InOneBlock(p.address, first) && InOneBlock(second, p.bytes - first)
    ensures second == p.address + first <==> BelowFourGb(p)
  {
    first := ATA_DMA_PHYSICAL_BOUNDARY - p.address % ATA_DMA_PHYSICAL_BOUNDARY;
    second := (p.address + first) % DWORD_RANGE;
    CutAtBoundary(p.address, p.bytes);
    CutWraps(p.address, first);
  }

  lemma CutPieceOk(p: Pair)
    requires Acceptable(p) && p.bytes > 0 && !InOneBlock(p.address, p.bytes)
    ensures forall e :: e in EntriesOf(p) ==> EntryOk(e)
    ensures |DeviceBytes(EntriesOf(p))| == p.bytes
    ensures DeviceBytes(EntriesOf(p)) == Region(p.address, p.bytes) <==> BelowFourGb(p)
  {
    var first, second := CutEntries(p);
    hide EntriesOf, InOneBlock, BelowFourGb;
    DeviceBytesOfTwo(PrdEntry(p.address, first, false), PrdEntry(second, p.bytes - first, false));
    TwoRegions(p.address, first, second, p.bytes);
  }

  lemma TwoRegions(address: nat, first: nat, second: nat, n: nat)
    requires first < n
    ensures Region(address, first) + Region(second, n - first) == Region(address, n) <==> second == address + first
  {
    var bytes := Region(address, first) + Region(second, n - first);
    assert bytes[first] == second && Region(address, n)[first] == address + first;
  }

  lemma CutWraps(address: nat, first: nat)
    requires address < DWORD_RANGE && first < WORD_RANGE && (address + first) % ATA_DMA_PHYSICAL_BOUNDARY == 0
    ensures (address + first) % DWORD_RANGE == (if address + first < DWORD_RANGE then address + first else 0)
    ensures (address + first) % DWORD_RANGE % ATA_DMA_PHYSICAL_BOUNDARY == 0
    ensures address + first <= DWORD_RANGE
    ensures address + first < DWORD_RANGE ==> address + first + ATA_DMA_PHYSICAL_BOUNDARY <= DWORD_RANGE
  {
  }

  lemma DeviceBytesOfOne(e: PrdEntry)
    ensures DeviceBytes([e]) == Region(e.physicalAddress, EntryLength(e))
  {
    assert [e][..0] == [];
  }

  lemma DeviceBytesOfTwo(e: PrdEntry, f: PrdEntry)
    ensures DeviceBytes([e, f]) == Region(e.physicalAddress, EntryLength(e)) + Region(f.physicalAddress, EntryLength(f))
  {
    assert [e, f][..1] == [e];
    DeviceBytesOfOne(e);
  }

  /** An empty piece is not transferred as nothing: its descriptor says 64 KB. */
  lemma EmptyPieceIsNotEmpty(p: Pair)
    requires p.bytes == 0
    ensures |DeviceBytes(EntriesOf(p))| >= WORD_RANGE
  {
    var es := EntriesOf(p);
    if |es| == 1 {
      assert es == [es[0]];
      DeviceBytesOfOne(es[0]);
    } else {
      assert es == [es[0], es[1]];
      DeviceBytesOfTwo(es[0], es[1]);
    }
  }

  lemma {:induction false} DeviceBytesOfConcatenation(a: seq<PrdEntry>, b: seq<PrdEntry>)
    ensures DeviceBytes(a + b) == DeviceBytes(a) + DeviceBytes(b)
  {
    if b == [] {
      assert a + b == a;
    } else {
      var n := |b| - 1;
      assert (a + b)[..|a| + n] == a + b[..n];
      DeviceBytesOfConcatenation(a, b[..n]);
    }
  }

  predicate AllAcceptable(pieces: seq<Pair>) {
    forall p :: p in pieces ==> Acceptable(p)
  }

  /** A descriptor table denotes exactly the bytes of the pieces, in order, if and only if no piece
      is empty and none reaches beyond 4 GB. */
  lemma {:induction false} TableDenotesPieces(pieces: seq<Pair>)
    requires AllAcceptable(pieces)
    ensures |DeviceBytes(Entries(pieces))| >= |BufferBytes(pieces)|
    ensures DeviceBytes(Entries(pieces)) == BufferBytes(pieces) <==>
      forall p :: p in pieces ==> p.bytes > 0 && BelowFourGb(p)
  {
    if pieces != [] {
      var n := |pieces| - 1;
      var front, p := pieces[..n], pieces[n];
      TableDenotesPieces(front);
      DeviceBytesOfConcatenation(Entries(front), EntriesOf(p));
      var d, b, x, y := DeviceBytes(Entries(front)), BufferBytes(front), DeviceBytes(EntriesOf(p)), Region(p.address, p.bytes);
      if p.bytes > 0 {
        EntriesOfOk(p);
      } else {
        EmptyPieceIsNotEmpty(p);
      }
      assert |x| >= |y|;
      if d + x == b + y {
        assert |d| == |b|;
        assert d == (d + x)[..|d|] == (b + y)[..|b|] == b;
        assert x == (d + x)[|d|..] == (b + y)[|b|..] == y;
      }
      assert forall q :: q in pieces <==> q in front || q == p;
    }
  }

  /** An empty piece is not empty for the controller: it goes through 64 KB, and twice if the piece
      starts a block. */
  lemma EmptyPieceIsBlocks(address: nat)
    requires address < 0x1_0000_0000
    ensures DeviceBytes(EntriesOf(Pair(address, 0))) ==
      if address % 0x1_0000 == 0 then Region(address, 0x1_0000) + Region(address, 0x1_0000) else Region(address, 0x1_0000)
  {
    var e := PrdEntry(address, 0, false);
    assert [e][..0] == [] && [e, e][..1] == [e];
    assert DeviceBytes([e]) == DeviceBytes([]) + Region(address, 0x1_0000);
    assert EntriesOf(Pair(address, 0)) == if address % 0x1_0000 == 0 then [e, e] else [e];
  }

  lemma {:induction false} EntriesAllOk(pieces: seq<Pair>)
    requires AllAcceptable(pieces) && forall p :: p in pieces ==> p.bytes > 0
    ensures forall e :: e in Entries(pieces) ==> EntryOk(e)
    ensures forall e :: e in Entries(pieces) ==>
      && e.physicalAddress < 0x1_0000_0000 && 0 < e.byteCount < 0x1_0000
      && e.physicalAddress / 0x1_0000 == (e.physicalAddress + e.byteCount - 1) / 0x1_0000
  {
    if pieces != [] {
      var n := |pieces| - 1;
      assert forall p :: p in pieces[..n] ==> p in pieces;
      EntriesAllOk(pieces[..n]);
      EntriesOfOk(pieces[n]);
    }
  }

  // ---------------------------------------------------------------- from pairs to pieces

  function TotalBytes(pairs: seq<Pair>): nat {
    if pairs == [] then 0 else TotalBytes(pairs[..|pairs| - 1]) + pairs[|pairs| - 1].bytes
  }

  /** Bytes remain iff the pairs hold less than the transfer. */
  lemma {:induction false} LeftIsShortfall(pairs: seq<Pair>, total: nat)
    ensures Left(pairs, total) == if TotalBytes(pairs) < total then total - TotalBytes(pairs) else 0
  {
    if pairs != [] {
      LeftIsShortfall(pairs[..|pairs| - 1], total);
    }
  }

  predicate NoPieceIsEmpty(pairs: seq<Pair>, total: nat) {
    forall p :: p in Pieces(pairs, total) ==> p.bytes > 0
  }

  /** No piece is empty iff no pair is, and the transfer reaches into the last pair: as for the
      page-granular descriptions that the memory manager makes. */
  lemma {:induction false} NoneEmptyIff(pairs: seq<Pair>, total: nat)
    requires pairs != []
    ensures NoPieceIsEmpty(pairs, total) <==>
      (forall p :: p in pairs ==> p.bytes > 0) && TotalBytes(pairs[..|pairs| - 1]) < total
  {
    var n := |pairs| - 1;
    var front, p := pairs[..n], pairs[n];
    var left := Left(front, total);
    LeftIsShortfall(front, total);
    assert forall q :: q in pairs <==> q in front || q == p;
    assert Pieces(pairs, total) == Pieces(front, total) + [Pair(p.address, Min(p.bytes, left))];
    assert forall q :: q in Pieces(pairs, total) <==> q in Pieces(front, total) || q == Pair(p.address, Min(p.bytes, left));
    if front != [] {
      NoneEmptyIff(front, total);
      assert TotalBytes(front) >= TotalBytes(front[..n - 1]);
    }
  }

  lemma {:induction false} ValidatedAreAcceptable(pairs: seq<Pair>, total: nat)
    requires FirstError(pairs) == Success
    ensures AllAcceptable(Pieces(pairs, total))
    ensures forall p :: p in pairs ==> Validated(p) == Success
  {
    if pairs != [] {
      ValidatedAreAcceptable(pairs[..|pairs| - 1], total);
    }
  }

  /** The bytes of the used parts are the first `total` bytes of the buffer. */
  lemma {:induction false} PiecesAreAPrefix(pairs: seq<Pair>, total: nat)
    ensures |BufferBytes(pairs)| == TotalBytes(pairs)
    ensures |BufferBytes(Pieces(pairs, total))| == total - Left(pairs, total) <= TotalBytes(pairs)
    ensures Left(pairs, total) > 0 ==> Pieces(pairs, total) == pairs
    ensures BufferBytes(Pieces(pairs, total)) == BufferBytes(pairs)[..total - Left(pairs, total)]
  {
    if pairs != [] {
      var front, p := pairs[..|pairs| - 1], pairs[|pairs| - 1];
      PiecesAreAPrefix(front, total);
      var left := Left(front, total);
      var used := Min(p.bytes, left);
      var pieces := Pieces(pairs, total);
      assert pieces == Pieces(front, total) + [Pair(p.address, used)];
      assert pieces[..|pieces| - 1] == Pieces(front, total);
      assert Left(pairs, total) == left - used && TotalBytes(pairs) == TotalBytes(front) + p.bytes;
      var b, c := BufferBytes(front), BufferBytes(Pieces(front, total));
      assert BufferBytes(pairs) == b + Region(p.address, p.bytes) && BufferBytes(pieces) == c + Region(p.address, used);
      hide Left, Pieces, BufferBytes, TotalBytes;
      RegionPrefix(p.address, used, p.bytes);
      if left > 0 {
        assert b[..|b|] == b && c == b;
      } else {
        assert Region(p.address, used) == [];
      }
    }
  }

  lemma RegionPrefix(address: nat, m: nat, n: nat)
    requires m <= n
    ensures Region(address, m) == Region(address, n)[..m]
  {
  }

  /** The whole transfer, for every validated description that covers it: nothing is left, there are
      at most twice as many descriptors as pairs, only the last is marked; the table denotes exactly
      the first `total` bytes of the buffer if and only if no piece is empty and all of them lie
      below 4 GB; and if none is empty, each descriptor is of 1 to 65535 bytes inside one 64 KB
      block. */
  lemma TransferIsTheBuffer(pairs: seq<Pair>, total: nat)
    requires pairs != [] && TotalBytes(pairs) >= total && FirstError(pairs) == Success
    ensures Left(pairs, total) == 0 && |BufferBytes(pairs)| >= total
    ensures var table := MarkLast(Entries(Pieces(pairs, total)));
      && |table| <= 2 * |pairs|
      && (NoPieceIsEmpty(pairs, total) ==> forall e :: e in table ==> EntryOk(e))
      && (forall i :: 0 <= i < |table| ==> (table[i].lastEntry <==> i == |table| - 1))
      && (DeviceBytes(table) == BufferBytes(pairs)[..total] <==>
            NoPieceIsEmpty(pairs, total) && forall p :: p in Pieces(pairs, total) ==> BelowFourGb(p))
  {
    hide Entries, DeviceBytes, BufferBytes, EntryOk, BelowFourGb, FirstError, Left, Pieces, TotalBytes, AllAcceptable;
    LeftIsShortfall(pairs, total);
    PiecesAreAPrefix(pairs, total);
    ValidatedAreAcceptable(pairs, total);
    TableDenotesPieces(Pieces(pairs, total));
    NoneIsMarked(Pieces(pairs, total));
    if NoPieceIsEmpty(pairs, total) {
      EntriesAllOk(Pieces(pairs, total));
    }
    MarkingKeepsBytes(Entries(Pieces(pairs, total)));
    MarkedEntries(Entries(Pieces(pairs, total)));
  }

  /** The usual one-sector transfer into a page covers more than the transfer, and is good. */
  lemma OneSectorOfAPage()
    ensures var pairs := [Pair(0x1000, PAGE_SIZE)];
      && FirstError(pairs) == Success && TotalBytes(pairs) > SECTOR_SIZE && NoPieceIsEmpty(pairs, SECTOR_SIZE)
      && DeviceBytes(MarkLast(Entries(Pieces(pairs, SECTOR_SIZE)))) == BufferBytes(pairs)[..SECTOR_SIZE]
      && Expected(pairs, SECTOR_SIZE, 0x1_0000, 0x2_0000) == Done
  {
    var pairs := [Pair(0x1000, PAGE_SIZE)];
    assert pairs[..0] == [] && FirstError([]) == Success && TotalBytes([]) == 0;
    assert Pieces(pairs, SECTOR_SIZE) == [Pair(0x1000, SECTOR_SIZE)];
    hide Entries, DeviceBytes, BufferBytes;
    TransferIsTheBuffer(pairs, SECTOR_SIZE);
    DoneIff(pairs, 1, 0x1_0000, 0x2_0000);
  }

  lemma {:induction false} NoneIsMarked(pieces: seq<Pair>)
    ensures forall e :: e in Entries(pieces) ==> !e.lastEntry
  {
    if pieces != [] {
      NoneIsMarked(pieces[..|pieces| - 1]);
    }
  }

  lemma MarkedEntries(entries: seq<PrdEntry>)
    requires entries != [] && forall e :: e in entries ==> !e.lastEntry
    ensures var table := MarkLast(entries);
      && |table| == |entries|
      && ((forall e :: e in entries ==> EntryOk(e)) ==> forall e :: e in table ==> EntryOk(e))
      && (forall i :: 0 <= i < |table| ==> (table[i].lastEntry <==> i == |table| - 1))
  {
    assert forall i :: 0 <= i < |entries| ==> entries[i] in entries;
  }

  lemma MarkingKeepsBytes(entries: seq<PrdEntry>)
    requires entries != []
    ensures DeviceBytes(MarkLast(entries)) == DeviceBytes(entries)
  {
    assert MarkLast(entries)[..|entries| - 1] == entries[..|entries| - 1];
  }

  // ---------------------------------------------------------------- the loop

  method ValidateTranslationPair(p: Pair) returns (status: Status)
    ensures status == Success <==>
      p.address < 0x1_0000_0000 && p.bytes < 0x1_0000 && p.address % 4 == 0 && p.bytes % 4 == 0
    ensures p.address >= 0x1_0000_0000 ==> status == AddressTooHigh
    ensures p.address < 0x1_0000_0000 && p.address % 4 == 0 && p.bytes >= 0x1_0000 ==> status == SpanTooLarge
    ensures p.address < 0x1_0000_0000 && (p.address % 4 != 0 || (p.bytes < 0x1_0000 && p.bytes % 4 != 0)) ==>
      status == AlignmentError
    ensures status == Validated(p)
  {
    if p.address > ATA_DMA_MAX_PHYSICAL_ADDRESS {
      return AddressTooHigh;
    }
    if p.address % ATA_DMA_ALIGNMENT != 0 {
      return AlignmentError;
    }
    if p.bytes > ATA_DMA_MAX_PHYSICAL_LEN {
      return SpanTooLarge;
    }
    if p.bytes % ATA_DMA_ALIGNMENT != 0 {
      return AlignmentError;
    }
    status := Success;
  }

  /** AlignAddressLower, and IsInSameBoundary in 64-bit arithmetic. */
  function AlignLower(address: nat, alignment: nat): int
    requires alignment > 0
  {
    address - address % alignment
  }

  predicate IsInSameBoundary(address: nat, size: nat, alignment: nat)
    requires alignment > 0
  {
    AlignLower(address, alignment) == AlignLower((address + size - 1) % QWORD_RANGE, alignment)
  }

  lemma SameBoundaryIsInOneBlock(address: nat, size: nat)
    requires address < DWORD_RANGE && size < WORD_RANGE
    ensures var same := IsInSameBoundary(address, size, ATA_DMA_PHYSICAL_BOUNDARY);
      && (size > 0 ==> (same <==> InOneBlock(address, size)))
      && (size == 0 ==> (same <==> address % ATA_DMA_PHYSICAL_BOUNDARY != 0))
  {
    if address + size > 0 {
      var last := address + size - 1;
      assert last % QWORD_RANGE == last;
      assert AlignLower(address, ATA_DMA_PHYSICAL_BOUNDARY) == address / ATA_DMA_PHYSICAL_BOUNDARY * ATA_DMA_PHYSICAL_BOUNDARY;
      assert AlignLower(last, ATA_DMA_PHYSICAL_BOUNDARY) == last / ATA_DMA_PHYSICAL_BOUNDARY * ATA_DMA_PHYSICAL_BOUNDARY;
    }
  }

  lemma SameBoundaryIsInOnePage(tableVa: nat, n: nat)
    requires tableVa < QWORD_RANGE && 0 < n < DWORD_RANGE
    ensures IsInSameBoundary(tableVa, 2 * n * PRD_ENTRY_SIZE, PAGE_SIZE) <==> TableInOnePage(tableVa, n)
  {
    var end := tableVa + 2 * n * PRD_ENTRY_SIZE - 1;
    var last := end % QWORD_RANGE;
    assert last == if end < QWORD_RANGE then end else end - QWORD_RANGE;
    assert AlignLower(tableVa, PAGE_SIZE) == tableVa / PAGE_SIZE * PAGE_SIZE;
    assert AlignLower(last, PAGE_SIZE) == last / PAGE_SIZE * PAGE_SIZE;
  }

  /** _AtaPrepareDmaTransfer; `tableVa` and `prdtPa` are the virtual and the physical address of the
      table that was allocated. */
  method PrepareDmaTransfer(pairs: seq<Pair>, sectorCount: nat, tableVa: nat, prdtPa: nat)
    returns (r: Outcome, prdTable: array<PrdEntry>, used: nat)
    requires sectorCount < WORD_RANGE && |pairs| < DWORD_RANGE && tableVa < QWORD_RANGE
    ensures r == Expected(pairs, sectorCount * SECTOR_SIZE, tableVa, prdtPa)
    ensures fresh(prdTable) && prdTable.Length == 2 * |pairs| >= used
    ensures r.Done? ==> used > 0 && prdTable[..used] == MarkLast(Entries(Pieces(pairs, sectorCount * SECTOR_SIZE)))
    // when it is done, in the numbers given
    ensures r == Done <==>
      && 0 < sectorCount && 0 < |pairs|
      && tableVa / 0x1000 == (tableVa + 16 * |pairs| - 1) / 0x1000
      && (forall p :: p in pairs ==>
            p.address < 0x1_0000_0000 && p.bytes < 0x1_0000 && p.address % 4 == 0 && p.bytes % 4 == 0)
      && TotalBytes(pairs) >= 512 * sectorCount
      && 0 < prdtPa < 0x1_0000_0000
    // and what the table then means
    ensures r == Done ==>
      && |BufferBytes(pairs)| >= 512 * sectorCount
      && (DeviceBytes(prdTable[..used]) == BufferBytes(pairs)[..512 * sectorCount] <==>
            && NoPieceIsEmpty(pairs, sectorCount * SECTOR_SIZE)
            && forall p :: p in Pieces(pairs, sectorCount * SECTOR_SIZE) ==> p.address + p.bytes <= 0x1_0000_0000)
  {
    hide Left, Pieces, Entries, FirstError, TableInOnePage, IsInSameBoundary, DeviceBytes, BufferBytes, NoPieceIsEmpty, TotalBytes,
         MarkLast;
    DoneIff(pairs, sectorCount, tableVa, prdtPa);
    var bytesRemaining := sectorCount * SECTOR_SIZE;
    prdTable := new PrdEntry[2 * |pairs|](_ => PrdEntry(0, 0, false));
    used := 0;
    NoPairsNoTable(tableVa);
    if sectorCount == 0 || |pairs| == 0 {
      return Panic, prdTable, used;
    }
    SameBoundaryIsInOnePage(tableVa, |pairs|);
    if !IsInSameBoundary(tableVa, 2 * |pairs| * PRD_ENTRY_SIZE, PAGE_SIZE) {
      return Panic, prdTable, used;
    }
    var status;
    status, used, bytesRemaining := FillTable(pairs, prdTable, bytesRemaining);
    if status != Success {
      return Failed(status), prdTable, used;
    }
    if bytesRemaining != 0 {
      return Panic, prdTable, used;
    }
    SomeEntries(Pieces(pairs, sectorCount * SECTOR_SIZE));
    MarkedInPlace(prdTable[..], used);
    prdTable[used - 1] := prdTable[used - 1].(lastEntry := true);
    if prdtPa == 0 {
      return Panic, prdTable, used;
    }
    if prdtPa > ATA_DMA_MAX_PHYSICAL_ADDRESS {
      return Failed(AddressTooHigh), prdTable, used;
    }
    TransferIsTheBuffer(pairs, sectorCount * SECTOR_SIZE);
    r := Done;
  }

  lemma SomeEntries(pieces: seq<Pair>)
    requires pieces != []
    ensures Entries(pieces) != []
  {
  }

  lemma MarkedInPlace(table: seq<PrdEntry>, used: nat)
    requires 0 < used <= |table|
    ensures table[used - 1 := table[used - 1].(lastEntry := true)][..used] == MarkLast(table[..used])
  {
  }

  /** The loop over the pairs: the descriptors of all of them, or the status of the first one that is
      refused. */
  method FillTable(pairs: seq<Pair>, prdTable: array<PrdEntry>, total: nat)
    returns (status: Status, used: nat, bytesRemaining: nat)
    requires prdTable.Length == 2 * |pairs|
    modifies prdTable
    ensures status == FirstError(pairs) && used <= prdTable.Length
    ensures status == Success ==>
      bytesRemaining == Left(pairs, total) && prdTable[..used] == Entries(Pieces(pairs, total))
  {
    hide EntriesOf, Validated, Left, Pieces, Entries, FirstError;
    bytesRemaining := total;
    used := 0;
    NoPairs(total);
    for i := 0 to |pairs|
      invariant bytesRemaining == Left(pairs[..i], total)
      invariant FirstError(pairs[..i]) == Success
      invariant used == |Entries(Pieces(pairs[..i], total))|
      invariant prdTable[..used] == Entries(Pieces(pairs[..i], total))
    {
      OneMorePair(pairs, i, total);
      status := ValidateTranslationPair(pairs[i]);
      if status != Success {
        ErrorIsFirst(pairs, i + 1);
        return;
      }
      var byteCountForPrd := Min(pairs[i].bytes, bytesRemaining);
      used := WriteEntries(prdTable, used, pairs[i].address, byteCountForPrd);
      bytesRemaining := bytesRemaining - byteCountForPrd;
    }
    assert pairs[..|pairs|] == pairs;
    status := Success;
  }

  lemma NoPairsNoTable(tableVa: nat)
    ensures !TableInOnePage(tableVa, 0)
  {
  }

  lemma NoPairs(total: nat)
    ensures Left([], total) == total && FirstError([]) == Success && Entries(Pieces([], total)) == []
  {
  }

  /** What the next pair adds. */
  lemma OneMorePair(pairs: seq<Pair>, i: nat, total: nat)
    requires i < |pairs|
    ensures var left := Left(pairs[..i], total); var used := Min(pairs[i].bytes, left);
      && Left(pairs[..i + 1], total) == left - used
      && Entries(Pieces(pairs[..i + 1], total)) == Entries(Pieces(pairs[..i], total)) + EntriesOf(Pair(pairs[i].address, used))
    ensures FirstError(pairs[..i]) == Success ==> FirstError(pairs[..i + 1]) == Validated(pairs[i])
  {
    hide EntriesOf, Validated;
    assert pairs[..i + 1][..i] == pairs[..i];
    var pieces := Pieces(pairs[..i + 1], total);
    assert pieces[..i] == Pieces(pairs[..i], total);
  }

  lemma {:induction false} ErrorIsFirst(pairs: seq<Pair>, i: nat)
    requires i <= |pairs| && FirstError(pairs[..i]) != Success
    ensures FirstError(pairs) == FirstError(pairs[..i])
    decreases |pairs|
  {
    if i < |pairs| {
      assert pairs[..|pairs| - 1][..i] == pairs[..i];
      ErrorIsFirst(pairs[..|pairs| - 1], i);
    } else {
      assert pairs[..i] == pairs;
    }
  }

  /** The descriptors of one pair. */
  method WriteEntries(prdTable: array<PrdEntry>, start: nat, address: nat, byteCountForPrd: nat) returns (next: nat)
    requires address < DWORD_RANGE && byteCountForPrd < WORD_RANGE
    requires start + 2 <= prdTable.Length
    modifies prdTable
    ensures next == start + |EntriesOf(Pair(address, byteCountForPrd))|
    ensures prdTable[..next] == old(prdTable[..start]) + EntriesOf(Pair(address, byteCountForPrd))
  {
    SameBoundaryIsInOneBlock(address, byteCountForPrd);
    next := start;
    var byteCountForAlignment := 0;
    if !IsInSameBoundary(address, byteCountForPrd, ATA_DMA_PHYSICAL_BOUNDARY) {
      byteCountForAlignment := (ATA_DMA_PHYSICAL_BOUNDARY - address % ATA_DMA_PHYSICAL_BOUNDARY) % WORD_RANGE;
      prdTable[next] := PrdEntry(address % DWORD_RANGE, byteCountForAlignment, false);
      next := next + 1;
    }
    prdTable[next] := PrdEntry((address + byteCountForAlignment) % DWORD_RANGE,
                               (byteCountForPrd - byteCountForAlignment) % WORD_RANGE, false);
    next := next + 1;
  }
}
