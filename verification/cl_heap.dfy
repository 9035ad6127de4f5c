/** The heap as the kernel keeps it: a header at the arena's base, HEAP_ENTRY records and
    magic tails at addresses inside the arena, and the intrusive list that strings the
    entries together. Every method is proved against the policy of `HeapArena`.
 */
module ClHeap {
  import opened IntrusiveList
  import opened HeapArena

  const HEAP_MAGIC := 0xACE2_302E
  const DEFAULT_ALIGNMENT := 16
  const ALLOCATIONS_OFFSET := 0x38   // FIELD_OFFSET(HEAP_HEADER, HeapAllocations)
  const LIST_ENTRY_OFFSET := 0x10    // FIELD_OFFSET(HEAP_ENTRY, ListEntry)

  datatype HeapEntry = HeapEntry(magic: int, tag: int, size: nat, offset: int)

  /** What an allocation gives. `Overrun` stands for writing a block that does not stay within its
      place: the model ends where the code overwrites a neighbour or what lies behind the arena. */
  datatype Pointer = Address(address: int) | Null | Panic | Overrun

  /** What becomes of one place that is tried. `BadPredecessor` is the failed ASSERT that the entry
      before the new one is valid, which finds the new block written but not linked in. */
  datatype Attempt = NoFit | Inserted(entry: int) | OutOfPlace | BadPredecessor

  datatype SearchResult = Tried(attempt: Attempt) | NullPredecessor

  datatype FreeResult = Released | BadEntry | TooLarge

  datatype InitStatus = Initialized(heap: Heap) | InvalidParameter1 | HeapTooSmall | InvalidParameter3

  function ToQword(x: int): int { x % QWORD_RANGE }

  /** A QWORD read as an INT64. */
  function ToInt64(x: int): int {
    var q := ToQword(x);
    if q < QWORD_RANGE / 2 then q else q - QWORD_RANGE
  }

  /** The list as a sequence of addresses: the head in the header, then the entries in order. */
  function ListOf(a: Arena): (s: seq<Ptr>)
    ensures |s| == |a.blocks| + 1
    ensures s[0] == a.base + ALLOCATIONS_OFFSET
    ensures forall i :: 1 <= i <= |a.blocks| ==> s[i] == a.blocks[i - 1].entry + LIST_ENTRY_OFFSET
  {
    [a.base + ALLOCATIONS_OFFSET]
    + seq(|a.blocks|, i requires 0 <= i < |a.blocks| => a.blocks[i].entry + LIST_ENTRY_OFFSET)
  }

  /** The memory holds the records of exactly these blocks' entries and tails, and the list. */
  ghost predicate Holds(m: Links, entries: map<int, HeapEntry>, tails: map<int, int>, a: Arena) {
    && Ring(m, ListOf(a))
    && forall i :: 0 <= i < |a.blocks| ==> HoldsBlock(entries, tails, a.blocks[i])
  }

  ghost predicate HoldsBlock(entries: map<int, HeapEntry>, tails: map<int, int>, b: Block) {
    && b.entry in entries && entries[b.entry] == HeapEntry(HEAP_MAGIC, b.tag, b.size, ENTRY_SIZE)
    && b.End() - TAIL_SIZE in tails && tails[b.End() - TAIL_SIZE] == HEAP_MAGIC
  }

  lemma ListOfPut(a: Arena, i: nat, b: Block)
    requires i <= |a.blocks|
    ensures ListOf(Put(a, i, b)) == WithInserted(ListOf(a), i + 1, b.entry + LIST_ENTRY_OFFSET)
  {
  }

  lemma ListOfTake(a: Arena, i: nat)
    requires i < |a.blocks|
    ensures ListOf(Take(a, i)) == Without(ListOf(a), i + 1)
  {
  }

  lemma ListOfAvoids(a: Arena, i: nat, b: Block)
    requires Ordered(a) && i <= |a.blocks| && Ordered(Put(a, i, b))
    ensures b.entry + LIST_ENTRY_OFFSET !in ListOf(a)
    ensures forall j :: 0 <= j < |a.blocks| ==> a.blocks[j].entry != b.entry && a.blocks[j].End() != b.End()
  {
    var bs := Put(a, i, b).blocks;
    assert bs[i] == b && b.Inside(a.base, a.max);
    forall j | 0 <= j < |a.blocks|
      ensures a.blocks[j].entry != b.entry && a.blocks[j].End() != b.End()
    {
      var k := if j < i then j else j + 1;
      assert bs[k] == a.blocks[j] && bs[k].Inside(a.base, a.max);
    }
  }

  /** Writing a new block's entry and tail and linking it in at its place adds just that block. */
  lemma PutKeepsHolds(m: Links, entries: map<int, HeapEntry>, tails: map<int, int>, a: Arena, i: nat, b: Block)
    requires Holds(m, entries, tails, a) && Ordered(a) && i <= |a.blocks| && Ordered(Put(a, i, b))
    ensures b.entry + LIST_ENTRY_OFFSET !in ListOf(a)
    ensures Holds(InsertAfter(m, ListOf(a)[i], b.entry + LIST_ENTRY_OFFSET),
                  entries[b.entry := HeapEntry(HEAP_MAGIC, b.tag, b.size, ENTRY_SIZE)],
                  tails[b.End() - TAIL_SIZE := HEAP_MAGIC],
                  Put(a, i, b))
  {
    ListOfAvoids(a, i, b);
    ListOfPut(a, i, b);
    InsertAfterKeepsRing(m, ListOf(a), i, b.entry + LIST_ENTRY_OFFSET);
    var bs := Put(a, i, b).blocks;
    forall j | 0 <= j < |bs|
      ensures HoldsBlock(entries[b.entry := HeapEntry(HEAP_MAGIC, b.tag, b.size, ENTRY_SIZE)],
                         tails[b.End() - TAIL_SIZE := HEAP_MAGIC], bs[j])
    {
      if j != i {
        var k := if j < i then j else j - 1;
        assert bs[j] == a.blocks[k] && HoldsBlock(entries, tails, a.blocks[k]);
      }
    }
  }

  lemma TakeKeepsHolds(m: Links, entries: map<int, HeapEntry>, tails: map<int, int>, a: Arena, i: nat)
    requires Holds(m, entries, tails, a) && Ordered(a) && i < |a.blocks|
    ensures ListOf(a)[i + 1] in m.flink && ListOf(a)[i + 1] in m.blink
    ensures Holds(Unlink(m, ListOf(a)[i + 1]), entries - {a.blocks[i].entry},
                  tails - {a.blocks[i].End() - TAIL_SIZE}, Take(a, i))
  {
    ListOfTake(a, i);
    UnlinkKeepsRing(m, ListOf(a), i + 1);
    var bs := Take(a, i).blocks;
    assert a.blocks[i].Inside(a.base, a.max);
    forall j | 0 <= j < |bs|
      ensures HoldsBlock(entries - {a.blocks[i].entry}, tails - {a.blocks[i].End() - TAIL_SIZE}, bs[j])
    {
      var k := if j < i then j else j + 1;
      assert bs[j] == a.blocks[k] && HoldsBlock(entries, tails, a.blocks[k]) && a.blocks[k].Inside(a.base, a.max);
    }
  }

  lemma ToQwordNearby(x: int)
    requires -QWORD_RANGE <= x < 2 * QWORD_RANGE
    ensures ToQword(x) == if x < 0 then x + QWORD_RANGE else if x < QWORD_RANGE then x else x - QWORD_RANGE
  {
  }

  /** No 64-bit wrap-around can disturb the fit test: the padding survives a wrapped data
      address, and a data address that fits did not wrap. */
  lemma FitTestIsExact(unaligned: int, up: int, total: int, available: int)
    requires 0 < unaligned <= up < unaligned + DWORD_RANGE
    requires 0 < total <= available && unaligned + available <= QWORD_RANGE
    ensures ToQword(unaligned) == unaligned
    ensures ToQword(ToQword(up) - unaligned + total % DWORD_RANGE) == up - unaligned + total % DWORD_RANGE
    ensures up - unaligned + total % DWORD_RANGE <= available ==> ToQword(up) == up
  {
    ToQwordNearby(unaligned);
    ToQwordNearby(up);
    ToQwordNearby(ToQword(up) - unaligned + total % DWORD_RANGE);
    assert total % DWORD_RANGE == 0 ==> total >= DWORD_RANGE;
  }

  lemma RoomIsInside(a: Arena, i: nat)
    requires Ordered(a) && i <= |a.blocks|
    ensures 0 < Floor(a, i) && Floor(a, i) + ENTRY_SIZE + Room(a, i) <= QWORD_RANGE
  {
    FloorsAscend(a, 0, i);
    if i < |a.blocks| {
      assert a.blocks[i].Inside(a.base, a.max);
    }
  }

  function NextPosition(n: nat, p: nat): nat {
    if p < n then p + 1 else 0
  }

  /** The predecessor record is the record of the predecessor entry, except at the head and,
      once the walk has wrapped around, at the first entry. */
  predicate Trusted(k: nat, p: nat) {
    p >= 2 || (p == 1 && k == 0)
  }

  /** The gaps a search that has reached list position `p` as its predecessor still looks at. */
  function ProbesFrom(n: nat, k: nat, p: nat): (r: seq<int>)
    ensures k <= n ==> forall j :: 0 <= j < |r| ==> 0 <= r[j] < n
  {
    if k == 0 then Range(p, n)
    else if p > k then Range(p, n) + Range(2, k - 1)
    else Range(if p < 2 then 2 else p, k - 1)
  }

  lemma ProbesFromStart(n: nat, k: nat)
    requires k <= n
    ensures ProbesFrom(n, k, NextPosition(n, k)) == Probes(n, k)
  {
  }

  /** A step past a gap the search really examines drops that gap; a step around the list
      head, or past the stale predecessor, drops none. */
  lemma ProbesFromStep(n: nat, k: nat, p: nat)
    requires k <= n && p <= n && p != k && NextPosition(n, p) != k
    ensures var rest := ProbesFrom(n, k, NextPosition(n, p));
      ProbesFrom(n, k, p) == if p < n && Trusted(k, p) then [p] + rest else rest
  {
  }

  lemma ProbesFromEnd(n: nat, k: nat, p: nat)
    requires k <= n && p <= n && NextPosition(n, p) == k
    ensures ProbesFrom(n, k, p) == []
  {
  }

  lemma FirstFitStep(a: Arena, p: nat, rest: seq<int>, size: nat, alignment: int)
    requires PowerOfTwo(alignment) && p < |a.blocks|
    requires forall j :: 0 <= j < |rest| ==> 0 <= rest[j] < |a.blocks|
    ensures forall j :: 0 <= j < |[p] + rest| ==> 0 <= ([p] + rest)[j] < |a.blocks|
    ensures FirstFit(a, [p] + rest, size, alignment) ==
            if GapFits(a, p, size, alignment) then Some(p) else FirstFit(a, rest, size, alignment)
  {
    assert ([p] + rest)[1..] == rest;
  }

  lemma FirstFitAdvance(a: Arena, k: nat, p: nat, size: nat, alignment: int)
    requires PowerOfTwo(alignment)
    requires var n := |a.blocks|; k <= n && p <= n && p != k && NextPosition(n, p) != k
    ensures FirstFit(a, ProbesFrom(|a.blocks|, k, p), size, alignment)
            == if GapTaken(a, k, p, size, alignment) then Some(p)
               else FirstFit(a, ProbesFrom(|a.blocks|, k, NextPosition(|a.blocks|, p)), size, alignment)
  {
    var n := |a.blocks|;
    ProbesFromStep(n, k, p);
    if p < n && Trusted(k, p) {
      FirstFitStep(a, p, ProbesFrom(n, k, NextPosition(n, p)), size, alignment);
    }
  }

  predicate GapTaken(a: Arena, k: nat, p: nat, size: nat, alignment: int)
    requires PowerOfTwo(alignment) && p <= |a.blocks|
  {
    p < |a.blocks| && Trusted(k, p) && GapFits(a, p, size, alignment)
  }

  /** The four pointers of the search. */
  datatype Cursor = Cursor(previousEntry: Ptr, previousHeapEntry: int, curEntry: Ptr, curHeapEntry: int)

  /** The search stands at position `p`, and its two record pointers are what they can be there. */
  ghost predicate Walking(a: Arena, k: nat, p: nat, c: Cursor) {
    var n := |a.blocks|;
    && k <= n && p <= n && p != k && n > 0
    && c.previousEntry == ListOf(a)[p] && c.curEntry == ListOf(a)[NextPosition(n, p)]
    && (Trusted(k, p) ==> c.previousHeapEntry == a.blocks[p - 1].entry)
    && (p == 1 && k > 0 ==> c.previousHeapEntry == StaleRecord(a, k))
    && c.curHeapEntry == (if p == NextPosition(n, k) then 0
                          else if Trusted(k, p) then a.blocks[p - 1].entry
                          else StaleRecord(a, k))
    && (2 <= p < k ==> !SearchPanics(n, k))
  }

  /** The record left over from before the wrap: none, or that of the last entry. */
  function StaleRecord(a: Arena, k: nat): int {
    if |a.blocks| <= k + 1 then 0 else a.blocks[|a.blocks| - 1].entry
  }

  lemma HeadIsFirstOnly(a: Arena, i: nat)
    requires Ordered(a) && i <= |a.blocks|
    ensures ListOf(a)[i] == a.base + ALLOCATIONS_OFFSET <==> i == 0
    ensures i > 0 ==> ListOf(a)[i] - LIST_ENTRY_OFFSET == a.blocks[i - 1].entry > 0
  {
    if i > 0 {
      assert a.blocks[i - 1].Inside(a.base, a.max);
    }
  }

  lemma ListIsInjective(a: Arena, i: nat, j: nat)
    requires Ordered(a) && i <= |a.blocks| && j <= |a.blocks|
    ensures ListOf(a)[i] == ListOf(a)[j] <==> i == j
  {
    HeadIsFirstOnly(a, i);
    HeadIsFirstOnly(a, j);
    if 0 < i < j {
      assert a.blocks[i - 1].Inside(a.base, a.max);
      assert a.blocks[i - 1].End() <= a.blocks[j - 1].entry;
    } else if 0 < j < i {
      assert a.blocks[j - 1].Inside(a.base, a.max);
      assert a.blocks[j - 1].End() <= a.blocks[i - 1].entry;
    }
  }

  lemma StartWalking(a: Arena, k: nat)
    requires Ordered(a) && a.blocks != [] && k <= |a.blocks|
    ensures var p := NextPosition(|a.blocks|, k);
      Walking(a, k, p, Cursor(ListOf(a)[p], ListOf(a)[p] - LIST_ENTRY_OFFSET, ListOf(a)[NextPosition(|a.blocks|, p)], 0))
  {
    HeadIsFirstOnly(a, NextPosition(|a.blocks|, k));
  }

  lemma WalkingPointers(a: Arena, k: nat, p: nat, c: Cursor)
    requires Ordered(a) && Walking(a, k, p, c)
    ensures k <= |a.blocks| && p <= |a.blocks| && p != k
    ensures c.previousEntry == ListOf(a)[p] && c.curEntry == ListOf(a)[NextPosition(|a.blocks|, p)]
    ensures c.curEntry == ListOf(a)[k] <==> NextPosition(|a.blocks|, p) == k
  {
    ListIsInjective(a, k, NextPosition(|a.blocks|, p));
  }

  lemma StepAroundHead(a: Arena, k: nat, p: nat, c: Cursor, next: Ptr)
    requires Ordered(a) && Walking(a, k, p, c)
    requires c.curEntry == a.base + ALLOCATIONS_OFFSET || c.previousEntry == a.base + ALLOCATIONS_OFFSET
    requires var n := |a.blocks|; NextPosition(n, p) != k && next == ListOf(a)[NextPosition(n, NextPosition(n, p))]
    ensures p == |a.blocks| || p == 0
    ensures Walking(a, k, NextPosition(|a.blocks|, p), Cursor(c.curEntry, c.curHeapEntry, next, c.curHeapEntry))
  {
    HeadIsFirstOnly(a, p);
    HeadIsFirstOnly(a, NextPosition(|a.blocks|, p));
  }

  lemma NullPredecessorMeansPanic(a: Arena, k: nat, p: nat, c: Cursor)
    requires Ordered(a) && Walking(a, k, p, c)
    requires c.curEntry != a.base + ALLOCATIONS_OFFSET && c.previousEntry != a.base + ALLOCATIONS_OFFSET
    requires NextPosition(|a.blocks|, p) != k
    ensures 0 < p < |a.blocks|
    ensures c.previousHeapEntry == 0 <==> SearchPanics(|a.blocks|, k)
    ensures !Trusted(k, p) ==> p == 1 && 3 <= k
    ensures c.previousHeapEntry != 0 ==>
      c.previousHeapEntry == a.blocks[(if Trusted(k, p) then p else |a.blocks|) - 1].entry
  {
    HeadIsFirstOnly(a, p);
    HeadIsFirstOnly(a, NextPosition(|a.blocks|, p));
    HeadIsFirstOnly(a, |a.blocks|);
  }

  /** Between the stale record (the last entry) and the second entry there is never room. */
  lemma StaleGapIsNegative(a: Arena)
    requires Ordered(a) && |a.blocks| >= 3
    ensures a.blocks[1].entry - a.blocks[|a.blocks| - 1].End() < 0
    ensures ToInt64(a.blocks[1].entry - a.blocks[|a.blocks| - 1].End()) < 0
  {
    var last := a.blocks[|a.blocks| - 1];
    assert last.Inside(a.base, a.max) && a.blocks[1].Inside(a.base, a.max);
    assert a.blocks[1].End() <= last.entry;
    ToQwordNearby(a.blocks[1].entry - last.End());
  }

  lemma GapIsItself(a: Arena, i: nat)
    requires Ordered(a) && 1 <= i < |a.blocks|
    ensures 0 <= a.blocks[i].entry - a.blocks[i - 1].End() == Room(a, i)
    ensures ToInt64(a.blocks[i].entry - a.blocks[i - 1].End()) == Room(a, i)
    ensures ToQword(a.blocks[i - 1].End()) == Floor(a, i) == a.blocks[i - 1].End()
  {
    assert a.blocks[i - 1].Inside(a.base, a.max) && a.blocks[i].Inside(a.base, a.max);
    assert a.blocks[i - 1].End() <= a.blocks[i].entry;
    ToQwordNearby(a.blocks[i].entry - a.blocks[i - 1].End());
    ToQwordNearby(a.blocks[i - 1].End());
  }

  /** A search that comes round to its restart entry has neither panicked nor found a gap. */
  lemma EndMeansNoPanic(a: Arena, k: nat, p: nat, c: Cursor, size: nat, alignment: int)
    requires Walking(a, k, p, c) && NextPosition(|a.blocks|, p) == k && PowerOfTwo(alignment)
    ensures !SearchPanics(|a.blocks|, k)
    ensures FirstFit(a, ProbesFrom(|a.blocks|, k, p), size, alignment) == None
  {
    ProbesFromEnd(|a.blocks|, k, p);
  }

  /** What the search computes as the gap size: the gap itself when the record is right,
      something negative when it is stale. */
  lemma GapSize(a: Arena, k: nat, p: nat, c: Cursor, startAddress: int)
    requires Ordered(a) && Walking(a, k, p, c) && 0 < p < |a.blocks|
    requires !Trusted(k, p) ==> p == 1 && 3 <= k
    requires startAddress == ToQword(a.blocks[(if Trusted(k, p) then p else |a.blocks|) - 1].End())
    ensures Trusted(k, p) ==> startAddress == Floor(a, p)
                              && ToInt64(a.blocks[p].entry - startAddress) == Room(a, p)
    ensures !Trusted(k, p) ==> ToInt64(a.blocks[p].entry - startAddress) < 0
  {
    if Trusted(k, p) {
      GapIsItself(a, p);
    } else {
      StaleGapIsNegative(a);
      assert a.blocks[|a.blocks| - 1].Inside(a.base, a.max);
    }
  }

  /** Past an entry that is neither the head nor behind it, the records are in step again. */
  lemma StepPastEntry(a: Arena, k: nat, p: nat, c: Cursor, next: Ptr)
    requires Ordered(a) && Walking(a, k, p, c) && 0 < p < |a.blocks| && p + 1 != k
    requires !SearchPanics(|a.blocks|, k)
    requires next == ListOf(a)[NextPosition(|a.blocks|, p + 1)]
    ensures Walking(a, k, p + 1, Cursor(c.curEntry, c.curEntry - LIST_ENTRY_OFFSET, next, c.curEntry - LIST_ENTRY_OFFSET))
  {
    HeadIsFirstOnly(a, p + 1);
  }

  /** Everything the heap keeps in memory, as a value. */
  datatype Fields = Fields(base: int, max: int, remaining: int, free: int, count: int, restart: Ptr,
                           words: Links, entries: map<int, HeapEntry>, tails: map<int, int>)

  /** Header fields, list, entries and tails agree with the abstract state. */
  ghost predicate Represents(f: Fields, s: State) {
    && Wf(s)
    && s.arena.base == f.base && s.arena.max == f.max
    && f.remaining == s.arena.remaining
    && f.free == FreeAddress(s.arena)
    && f.count == |s.arena.blocks|
    && Holds(f.words, f.entries, f.tails, s.arena)
    && f.restart == match s.restart
                    case At(k) => ListOf(s.arena)[k]
                    case Freed(entry) => entry + LIST_ENTRY_OFFSET
  }

  function NewRecord(b: Block): HeapEntry {
    HeapEntry(HEAP_MAGIC, b.tag, b.size, ENTRY_SIZE)
  }

  /** The memory after block `b` is written and linked in at list position `i + 1`. */
  function WithBlock(f: Fields, list: seq<Ptr>, i: nat, b: Block): Fields
    requires i < |list| && list[i] in f.words.flink
  {
    f.(remaining := f.remaining - b.Footprint() % DWORD_RANGE, count := f.count + 1,
       free := if i == |list| - 1 then b.End() else f.free,
       restart := if i == |list| - 1 then f.restart else b.entry + LIST_ENTRY_OFFSET,
       words := InsertAfter(f.words, list[i], b.entry + LIST_ENTRY_OFFSET),
       entries := f.entries[b.entry := NewRecord(b)],
       tails := f.tails[b.End() - TAIL_SIZE := HEAP_MAGIC])
  }

  function StateWithBlock(s: State, i: nat, b: Block): State
    requires i <= |s.arena.blocks|
  {
    State(Put(s.arena, i, b), RestartWith(s, i, b))
  }

  /** Writing a block that stays within its place is adding it to the abstract state. */
  lemma WithBlockRepresents(f: Fields, s: State, i: nat, size: nat, tag: int, alignment: int)
    requires Represents(f, s) && i <= |s.arena.blocks| && PowerOfTwo(alignment)
    requires 0 < size < DWORD_RANGE && tag != 0 && HasRoom(s.arena, i, size, alignment)
    ensures ListOf(s.arena)[i] in f.words.flink
    ensures var b := Placed(Floor(s.arena, i), size, tag, alignment);
      && b.entry > 0 && b.End() > 0
      && b.entry + LIST_ENTRY_OFFSET !in ListOf(s.arena)
      && Represents(WithBlock(f, ListOf(s.arena), i, b), StateWithBlock(s, i, b))
  {
    hide AlignLower, Placed, Fits, InsertAfter, HasRoom, Ordered, Charged, Holds, ListOf, Put, WithBlock, StateWithBlock;
    var a := s.arena;
    var b := Placed(Floor(a, i), size, tag, alignment);
    ListIsLinked(f, s, i);
    PlacedIsPositive(a, i, size, tag, alignment);
    PlacedKeepsArena(a, i, size, tag, alignment);
    PutKeepsHolds(f.words, f.entries, f.tails, a, i, b);
    AddedRepresents(f, s, i, b);
  }

  lemma ListIsLinked(f: Fields, s: State, i: nat)
    requires Represents(f, s) && i <= |s.arena.blocks|
    ensures i < |ListOf(s.arena)| && ListOf(s.arena)[i] in f.words.flink && ListOf(s.arena)[i] in f.words.blink
  {
    assert LinkedAt(f.words, ListOf(s.arena), i);
  }

  lemma PlacedIsPositive(a: Arena, i: nat, size: nat, tag: int, alignment: int)
    requires Ordered(a) && i <= |a.blocks| && PowerOfTwo(alignment)
    ensures Placed(Floor(a, i), size, tag, alignment).entry > 0
  {
    FloorsAscend(a, 0, i);
  }

  lemma AddedRepresents(f: Fields, s: State, i: nat, b: Block)
    requires Represents(f, s) && i <= |s.arena.blocks| && ListOf(s.arena)[i] in f.words.flink
    requires Ordered(Put(s.arena, i, b)) && Charged(Put(s.arena, i, b))
    requires Holds(InsertAfter(f.words, ListOf(s.arena)[i], b.entry + LIST_ENTRY_OFFSET),
                   f.entries[b.entry := HeapEntry(HEAP_MAGIC, b.tag, b.size, ENTRY_SIZE)],
                   f.tails[b.End() - TAIL_SIZE := HEAP_MAGIC], Put(s.arena, i, b))
    ensures Represents(WithBlock(f, ListOf(s.arena), i, b), StateWithBlock(s, i, b))
  {
    hide Ordered, Charged, Holds, InsertAfter;
    ListOfPut(s.arena, i, b);
  }

  /** The sizes the allocator derives from the header are the abstract ones; an empty list
      leaves no space before the free address, so it is never searched. */
  lemma HeaderFields(f: Fields, s: State)
    requires Represents(f, s)
    ensures f.remaining == s.arena.remaining && f.remaining < f.max
    ensures f.free == FreeAddress(s.arena)
    ensures Ring(f.words, ListOf(s.arena)) && ListOf(s.arena)[0] == f.base + ALLOCATIONS_OFFSET
    ensures ToInt64(f.base + f.max - f.free - ENTRY_SIZE) == TailSpace(s.arena)
    ensures s.arena.blocks == [] ==> f.remaining - TailSpace(s.arena) - ENTRY_SIZE == 0
    ensures s.restart.At? ==> s.restart.position <= |s.arena.blocks|
    ensures Ordered(s.arena)
  {
    SpaceBeforeCurrentIsAllGaps(s.arena);
    FloorsAscend(s.arena, 0, |s.arena.blocks|);
    ChargeIsNatural(s.arena, |s.arena.blocks|);
    assert s.arena.blocks[..|s.arena.blocks|] == s.arena.blocks;
    ToQwordNearby(f.base + f.max - f.free - ENTRY_SIZE);
  }

  lemma {:induction false} ChargeIsNatural(a: Arena, n: nat)
    requires Ordered(a) && n <= |a.blocks|
    ensures Used(a.blocks[..n]) >= DWORD_RANGE * Oversized(a.blocks[..n])
  {
    if n > 0 {
      ChargeIsNatural(a, n - 1);
      assert a.blocks[..n][..n - 1] == a.blocks[..n - 1];
      assert a.blocks[n - 1].Inside(a.base, a.max);
    }
  }

  /** The block would end behind the first address that is not its own, or at the very top of the
      address space, where the address behind it reads as 0. */
  predicate OverrunsLimit(b: Block, limit: int) {
    b.End() > limit || b.End() == QWORD_RANGE
  }

  /** The request is admitted at a place which its block does not stay within. */
  ghost predicate Overruns(s: State, size: nat, tag: int, alignment: int)
    requires PowerOfTwo(alignment) && (s.restart.At? ==> s.restart.position <= |s.arena.blocks|)
  {
    var i := Position(s, size, alignment);
    && Allocate(s, size, tag, alignment).Running? && Allocate(s, size, tag, alignment).state != s
    && OverrunsLimit(Placed(Floor(s.arena, i), size, tag, alignment), Ceiling(s.arena, i))
  }

  /** The request is put right behind a block whose tail the debug check looks for at a truncated
      address. */
  ghost predicate BehindOversized(s: State, size: nat, tag: int, alignment: int)
    requires PowerOfTwo(alignment) && (s.restart.At? ==> s.restart.position <= |s.arena.blocks|)
  {
    var i := Position(s, size, alignment);
    && Allocate(s, size, tag, alignment).Running? && Allocate(s, size, tag, alignment).state != s
    && 0 < i < |s.arena.blocks| && !s.arena.blocks[i - 1].Counted()
  }

  lemma RoomIsNoOverrun(a: Arena, i: nat, size: nat, tag: int, alignment: int)
    requires i <= |a.blocks| && PowerOfTwo(alignment)
    ensures HasRoom(a, i, size, alignment) <==> Placed(Floor(a, i), size, tag, alignment).End() <= Ceiling(a, i)
  {
  }

  /** No request whose total fits a DWORD overruns its place. */
  lemma CountedNeverOverruns(f: Fields, s: State, size: nat, tag: int, alignment: int)
    requires Represents(f, s) && PowerOfTwo(alignment) && size <= LARGEST_COUNTED_SIZE
    ensures s.restart.At? ==> s.restart.position <= |s.arena.blocks|
    ensures !Overruns(s, size, tag, alignment)
  {
    if Allocate(s, size, tag, alignment).Running? && Allocate(s, size, tag, alignment).state != s {
      var i := PlaceOf(s, size, tag, alignment);
      FittingBlockFits(Floor(s.arena, i), Room(s.arena, i), size, tag, alignment);
      if i < |s.arena.blocks| {
        assert s.arena.blocks[i].Inside(f.base, f.max);
      }
    }
  }

  /** The alignment a request gets. */
  function Effective(allocationAlignment: int): (r: int)
    requires allocationAlignment == 0 || PowerOfTwo(allocationAlignment)
    ensures PowerOfTwo(r) && r > 0
  {
    assert PowerOfTwo(2) && PowerOfTwo(4) && PowerOfTwo(8);
    if allocationAlignment == 0 then DEFAULT_ALIGNMENT else allocationAlignment
  }

  /** The request would walk the list from an entry that was freed. */
  ghost predicate Dangles(s: State, size: nat, tag: int, allocationAlignment: int) {
    && (allocationAlignment == 0 || PowerOfTwo(allocationAlignment))
    && s.restart.Freed?
    && Allocate(s, size, tag, Effective(allocationAlignment)).Dangling?
  }

  lemma RestartPosition(f: Fields, s: State)
    requires Represents(f, s) && s.restart.At?
    ensures Ordered(s.arena) && s.restart.position <= |s.arena.blocks|
    ensures f.restart == ListOf(s.arena)[s.restart.position]
    ensures f.base == s.arena.base
  {
  }

  /** What an allocation may give and leave, against the policy. */
  ghost predicate Outcomes(s: State, panicIfFail: bool, size: nat, tag: int, allocationAlignment: int, r: Pointer, s': State)
    requires allocationAlignment == 0 || PowerOfTwo(allocationAlignment)
    requires s.restart.At? ==> s.restart.position <= |s.arena.blocks|
  {
    var alignment := Effective(allocationAlignment);
    match Allocate(s, size, tag, alignment)
    case Panicked => r == Panic && s' == s
    case Dangling => false
    case Running(after, address) =>
      if Overruns(s, size, tag, alignment) then r == Overrun && s' == s
      else
        || (s' == after && r == if address != 0 then Address(address) else if panicIfFail then Panic else Null)
        || (s' == s && r == Panic && BehindOversized(s, size, tag, alignment))
  }

  /** A returned address is a multiple of the alignment asked for, 16 if none is, and the least one that
      leaves room for a header at its place; the list has one new block there, of the size and tag
      asked for. Without an address nothing has changed. */
  lemma OutcomeIs(s: State, panicIfFail: bool, size: nat, tag: int, allocationAlignment: int, r: Pointer, s': State) returns (i: nat)
    requires allocationAlignment == 0 || PowerOfTwo(allocationAlignment)
    requires Wf(s) && size < DWORD_RANGE && Outcomes(s, panicIfFail, size, tag, allocationAlignment, r, s')
    ensures r.Address? ==>
      var alignment := if allocationAlignment == 0 then 16 else allocationAlignment;
      && r.address % alignment == 0 && i <= |s.arena.blocks|
      && Floor(s.arena, i) + 0x20 <= r.address < Floor(s.arena, i) + 0x20 + alignment
      && s'.arena.blocks == s.arena.blocks[..i] + [Block(r.address - 0x20, size, tag)] + s.arena.blocks[i..]
      && s'.arena.remaining == s.arena.remaining - (size + 0x24) % 0x1_0000_0000
      && r.address + size + 4 <= if i < |s.arena.blocks| then s.arena.blocks[i].entry else s.arena.base + s.arena.max
    ensures !r.Address? ==> s' == s
    ensures r == Null ==> !panicIfFail
  {
    hide PowerOfTwo, Fits, Allocate, Position, FirstFit, Probes, Wf, Placed, Put, Effective, BehindOversized;
    i := 0;
    RestartInRange(s);
    var alignment := Effective(allocationAlignment);
    EffectiveIs(allocationAlignment);
    if Allocate(s, size, tag, alignment).Running? {
      AddressMeansChange(s, size, tag, alignment);
      if r.Address? {
        i := PlaceOf(s, size, tag, alignment);
        PutIs(s.arena, i, Placed(Floor(s.arena, i), size, tag, alignment));
      }
    }
  }

  lemma EffectiveIs(allocationAlignment: int)
    requires allocationAlignment == 0 || PowerOfTwo(allocationAlignment)
    ensures Effective(allocationAlignment) == if allocationAlignment == 0 then 16 else allocationAlignment
  {
  }

  lemma PutIs(a: Arena, i: nat, b: Block)
    requires i <= |a.blocks|
    ensures Put(a, i, b).blocks == a.blocks[..i] + [b] + a.blocks[i..]
    ensures Put(a, i, b).remaining == a.remaining - (b.size + 0x24) % 0x1_0000_0000
    ensures b == Block(b.Data() - 0x20, b.size, b.tag) && b.End() == b.Data() + b.size + 4
  {
  }

  ghost predicate MayFailCheck(s: State, size: nat, tag: int, allocationAlignment: int)
    requires allocationAlignment == 0 || PowerOfTwo(allocationAlignment)
    requires s.restart.At? ==> s.restart.position <= |s.arena.blocks|
  {
    BehindOversized(s, size, tag, Effective(allocationAlignment))
  }

  function Failure(panicIfFail: bool): Pointer {
    if panicIfFail then Panic else Null
  }

  lemma TooLargeForTail(s: State, size: nat, alignment: int)
    requires PowerOfTwo(alignment) && size + ENTRY_SIZE + TAIL_SIZE > TailSpace(s.arena)
    ensures !Fits(FreeAddress(s.arena), TailSpace(s.arena), size, alignment)
  {
  }

  /** A request that comes as far as the search has a restart entry, or it dangles. */
  lemma NotDangling(s: State, size: nat, tag: int, allocationAlignment: int)
    requires allocationAlignment == 0 || PowerOfTwo(allocationAlignment)
    requires !Dangles(s, size, tag, allocationAlignment)
    requires size != 0 && tag != 0 && size + ENTRY_SIZE + TAIL_SIZE <= s.arena.remaining
    requires size + ENTRY_SIZE + TAIL_SIZE <= s.arena.remaining - TailSpace(s.arena) - ENTRY_SIZE
    requires !Fits(FreeAddress(s.arena), TailSpace(s.arena), size, Effective(allocationAlignment))
    ensures s.restart.At?
  {
    hide PowerOfTwo, Fits;
  }

  /** The ways through the allocator, each with what it may give. */
  lemma RefusedOutcome(s: State, panicIfFail: bool, size: nat, tag: int, allocationAlignment: int)
    requires allocationAlignment == 0 || PowerOfTwo(allocationAlignment)
    requires s.restart.At? ==> s.restart.position <= |s.arena.blocks|
    requires var a := s.arena; var required := size + ENTRY_SIZE + TAIL_SIZE;
      || size == 0 || tag == 0 || required > a.remaining
      || (!Fits(FreeAddress(a), TailSpace(a), size, Effective(allocationAlignment))
          && required > a.remaining - TailSpace(a) - ENTRY_SIZE)
    ensures Outcomes(s, panicIfFail, size, tag, allocationAlignment, Failure(panicIfFail), s)
  {
    hide PowerOfTwo, AlignLower, Fits, FirstFit, Probes, Position;
    assert Allocate(s, size, tag, Effective(allocationAlignment)) == Running(s, 0);
  }

  /** A block put at position `i`: it overruns its place, or it does not; and then it may be refused
      if an oversized block lies before it. */
  lemma PlacedOutcome(s: State, panicIfFail: bool, size: nat, tag: int, allocationAlignment: int, i: nat)
    requires allocationAlignment == 0 || PowerOfTwo(allocationAlignment)
    requires s.restart.At? ==> s.restart.position <= |s.arena.blocks|
    requires i <= |s.arena.blocks| && Position(s, size, Effective(allocationAlignment)) == i
    requires var b := Placed(Floor(s.arena, i), size, tag, Effective(allocationAlignment));
      b.entry > 0 && Allocate(s, size, tag, Effective(allocationAlignment)) == Running(StateWithBlock(s, i, b), b.Data())
    ensures var b := Placed(Floor(s.arena, i), size, tag, Effective(allocationAlignment));
      && (OverrunsLimit(b, Ceiling(s.arena, i)) ==> Outcomes(s, panicIfFail, size, tag, allocationAlignment, Overrun, s))
      && (!OverrunsLimit(b, Ceiling(s.arena, i)) ==>
            Outcomes(s, panicIfFail, size, tag, allocationAlignment, Address(b.entry + ENTRY_SIZE), StateWithBlock(s, i, b)))
      && (!OverrunsLimit(b, Ceiling(s.arena, i)) && 0 < i < |s.arena.blocks| && !s.arena.blocks[i - 1].Counted() ==>
            && Outcomes(s, panicIfFail, size, tag, allocationAlignment, Panic, s)
            && MayFailCheck(s, size, tag, allocationAlignment))
  {
    hide PowerOfTwo, AlignLower, Fits, Allocate, Position, OverrunsLimit, Effective, Placed;
    PutLength(s.arena, i, Placed(Floor(s.arena, i), size, tag, Effective(allocationAlignment)));
  }

  lemma AppendedOutcome(s: State, panicIfFail: bool, size: nat, tag: int, allocationAlignment: int)
    requires allocationAlignment == 0 || PowerOfTwo(allocationAlignment)
    requires s.restart.At? ==> s.restart.position <= |s.arena.blocks|
    requires Ordered(s.arena) && 0 < size && tag != 0 && size + ENTRY_SIZE + TAIL_SIZE <= s.arena.remaining
    requires Fits(FreeAddress(s.arena), TailSpace(s.arena), size, Effective(allocationAlignment))
    ensures var b := Placed(FreeAddress(s.arena), size, tag, Effective(allocationAlignment));
      && (OverrunsLimit(b, s.arena.base + s.arena.max) ==> Outcomes(s, panicIfFail, size, tag, allocationAlignment, Overrun, s))
      && (!OverrunsLimit(b, s.arena.base + s.arena.max) ==>
            Outcomes(s, panicIfFail, size, tag, allocationAlignment, Address(b.entry + ENTRY_SIZE),
                     StateWithBlock(s, |s.arena.blocks|, b)))
  {
    var n := |s.arena.blocks|;
    FloorsAscend(s.arena, 0, n);
    hide PowerOfTwo, AlignLower, Fits, FirstFit, Probes, OverrunsLimit, Ordered, Outcomes, Effective, MayFailCheck;
    PlacedOutcome(s, panicIfFail, size, tag, allocationAlignment, n);
  }

  lemma SearchedOutcome(s: State, panicIfFail: bool, size: nat, tag: int, allocationAlignment: int)
    requires allocationAlignment == 0 || PowerOfTwo(allocationAlignment)
    requires Ordered(s.arena) && s.restart.At? && s.restart.position <= |s.arena.blocks|
    requires 0 < size && tag != 0 && size + ENTRY_SIZE + TAIL_SIZE <= s.arena.remaining
    requires size + ENTRY_SIZE + TAIL_SIZE <= s.arena.remaining - TailSpace(s.arena) - ENTRY_SIZE
    requires !Fits(FreeAddress(s.arena), TailSpace(s.arena), size, Effective(allocationAlignment))
    ensures SearchPanics(|s.arena.blocks|, s.restart.position) ==> Outcomes(s, panicIfFail, size, tag, allocationAlignment, Panic, s)
    ensures !SearchPanics(|s.arena.blocks|, s.restart.position) ==>
      match FirstFit(s.arena, Probes(|s.arena.blocks|, s.restart.position), size, Effective(allocationAlignment))
      case None => Outcomes(s, panicIfFail, size, tag, allocationAlignment, Failure(panicIfFail), s)
      case Some(i) =>
        var b := Placed(Floor(s.arena, i), size, tag, Effective(allocationAlignment));
        && (OverrunsLimit(b, s.arena.blocks[i].entry) ==> Outcomes(s, panicIfFail, size, tag, allocationAlignment, Overrun, s))
        && (!OverrunsLimit(b, s.arena.blocks[i].entry) ==>
              Outcomes(s, panicIfFail, size, tag, allocationAlignment, Address(b.entry + ENTRY_SIZE), StateWithBlock(s, i, b)))
        && (!OverrunsLimit(b, s.arena.blocks[i].entry) && 0 < i && !s.arena.blocks[i - 1].Counted() ==>
              && Outcomes(s, panicIfFail, size, tag, allocationAlignment, Panic, s)
              && MayFailCheck(s, size, tag, allocationAlignment))
  {
    hide PowerOfTwo, AlignLower, Fits, FirstFit, Probes, SearchPanics, OverrunsLimit, Effective, Outcomes, MayFailCheck, Ordered,
         Placed, Put;
    var a, n, k := s.arena, |s.arena.blocks|, s.restart.position;
    if SearchPanics(n, k) {
      SearchOutcomeOf(s, panicIfFail, size, tag, allocationAlignment);
    } else {
      match FirstFit(a, Probes(n, k), size, Effective(allocationAlignment)) {
        case None =>
          SearchOutcomeOf(s, panicIfFail, size, tag, allocationAlignment);
        case Some(i) =>
          PlacedIsPositive(a, i, size, tag, Effective(allocationAlignment));
          PlacedOutcome(s, panicIfFail, size, tag, allocationAlignment, i);
      }
    }
  }

  lemma SearchOutcomeOf(s: State, panicIfFail: bool, size: nat, tag: int, allocationAlignment: int)
    requires allocationAlignment == 0 || PowerOfTwo(allocationAlignment)
    requires s.restart.At? ==> s.restart.position <= |s.arena.blocks|
    ensures Allocate(s, size, tag, Effective(allocationAlignment)).Panicked? ==>
      Outcomes(s, panicIfFail, size, tag, allocationAlignment, Panic, s)
    ensures Allocate(s, size, tag, Effective(allocationAlignment)) == Running(s, 0) ==>
      Outcomes(s, panicIfFail, size, tag, allocationAlignment, Failure(panicIfFail), s)
  {
    hide Allocate, Position, PowerOfTwo;
  }

  /** Following Flink from a list position leads to the next position. */
  lemma FollowFlink(f: Fields, s: State, i: nat)
    requires Represents(f, s) && i <= |s.arena.blocks|
    ensures Ordered(s.arena)
    ensures ListOf(s.arena)[i] in f.words.flink
    ensures f.words.flink[ListOf(s.arena)[i]] == ListOf(s.arena)[NextPosition(|s.arena.blocks|, i)]
  {
    assert LinkedAt(f.words, ListOf(s.arena), i);
  }

  /** The memory after the block at list position `i + 1` is unlinked and wiped. */
  function WithoutBlock(f: Fields, a: Arena, i: nat): Fields
    requires i < |a.blocks|
    requires ListOf(a)[i + 1] in f.words.flink && ListOf(a)[i + 1] in f.words.blink
  {
    var b := a.blocks[i];
    f.(remaining := f.remaining + b.Footprint(), count := f.count - 1,
       free := if b.End() == f.free then Floor(a, i) else f.free,
       words := Unlink(f.words, ListOf(a)[i + 1]),
       entries := f.entries - {b.entry},
       tails := f.tails - {b.End() - TAIL_SIZE})
  }

  lemma WithoutBlockRepresents(f: Fields, s: State, i: nat)
    requires Represents(f, s) && i < |s.arena.blocks| && s.arena.blocks[i].Counted()
    ensures ListOf(s.arena)[i + 1] in f.words.flink && ListOf(s.arena)[i + 1] in f.words.blink
    ensures Represents(WithoutBlock(f, s.arena, i), FreeAt(s, i))
  {
    hide Unlink, LinkedAt, Ordered, Charged, Holds, ListOf, WithoutBlock, FreeAt, Take;
    ListIsLinked(f, s, i + 1);
    FreeKeepsWf(s, i);
    TakeKeepsHolds(f.words, f.entries, f.tails, s.arena, i);
    RemovedRepresents(f, s, i);
  }

  lemma RemovedRepresents(f: Fields, s: State, i: nat)
    requires Represents(f, s) && i < |s.arena.blocks| && Wf(FreeAt(s, i))
    requires ListOf(s.arena)[i + 1] in f.words.flink && ListOf(s.arena)[i + 1] in f.words.blink
    requires var b := s.arena.blocks[i];
      Holds(Unlink(f.words, ListOf(s.arena)[i + 1]), f.entries - {b.entry}, f.tails - {b.End() - TAIL_SIZE}, Take(s.arena, i))
    ensures Represents(WithoutBlock(f, s.arena, i), FreeAt(s, i))
  {
    hide Unlink, Charged, Holds, Used, Oversized;
    var a, n := s.arena, |s.arena.blocks|;
    ListOfTake(a, i);
    assert a.blocks[n - 1].Inside(a.base, a.max);
    assert i < n - 1 ==> a.blocks[i].End() <= a.blocks[n - 1].entry;
  }

  /** What Free reads about the block it is given. */
  lemma FreedBlock(f: Fields, s: State, i: nat)
    requires Represents(f, s) && i < |s.arena.blocks|
    ensures var b, list := s.arena.blocks[i], ListOf(s.arena);
      && b.Inside(f.base, f.max)
      && b.entry in f.entries && f.entries[b.entry] == NewRecord(b)
      && b.End() - TAIL_SIZE in f.tails && f.tails[b.End() - TAIL_SIZE] == HEAP_MAGIC
      && list[i + 1] == b.entry + LIST_ENTRY_OFFSET
      && list[i + 1] in f.words.flink && list[i + 1] in f.words.blink
      && f.words.blink[list[i + 1]] == list[i]
      && (list[i] == f.base + ALLOCATIONS_OFFSET <==> i == 0)
      && Ring(f.words, list)
    ensures i > 0 ==>
      var b, list := s.arena.blocks[i - 1], ListOf(s.arena);
      && list[i] == b.entry + LIST_ENTRY_OFFSET
      && b.entry in f.entries && f.entries[b.entry] == NewRecord(b)
  {
    assert HoldsBlock(f.entries, f.tails, s.arena.blocks[i]);
    assert i > 0 ==> HoldsBlock(f.entries, f.tails, s.arena.blocks[i - 1]);
    assert LinkedAt(f.words, ListOf(s.arena), i + 1);
    HeadIsFirstOnly(s.arena, i);
  }

  class Heap {
    const baseAddress: int
    const heapSizeMaximum: int
    var heapSizeRemaining: int
    var freeAddress: int
    var numberOfAllocations: int
    var entryToRestartSearch: Ptr

    const mem: ListMemory
    var entries: map<int, HeapEntry>
    var tails: map<int, int>

    ghost var state: State

    function Memory(): Fields
      reads this, mem
    {
      Fields(baseAddress, heapSizeMaximum, heapSizeRemaining, freeAddress, numberOfAllocations,
             entryToRestartSearch, mem.Words(), entries, tails)
    }

    ghost predicate Valid()
      reads this, mem
    {
      Represents(Memory(), state)
    }

    constructor (base: int, memoryAvailable: int)
      requires Sized(base, memoryAvailable)
      ensures Valid() && fresh(this) && fresh(mem)
      ensures state == Initial(base, memoryAvailable)
    {
      baseAddress := base;
      heapSizeMaximum := memoryAvailable;
      heapSizeRemaining := memoryAvailable - HEADER_SIZE;
      numberOfAllocations := 0;
      entryToRestartSearch := base + ALLOCATIONS_OFFSET;
      freeAddress := base + HEADER_SIZE;
      entries, tails := map[], map[];
      state := Initial(base, memoryAvailable);
      mem := new ListMemory();
      new;
      mem.InitializeListHead(baseAddress + ALLOCATIONS_OFFSET);
      assert ListOf(state.arena) == [base + ALLOCATIONS_OFFSET];
    }

    /** The addresses and the size that decide whether a block fits. */
    static method Measure(heapEntry: int, size: nat, tag: int, alignment: int, sizeAvailable: int)
      returns (unalignedDataAddress: int, dataAddress: int, heapEntrySize: int)
      requires PowerOfTwo(alignment) && 0 < alignment < DWORD_RANGE
      requires 0 < size < DWORD_RANGE && size + ENTRY_SIZE + TAIL_SIZE <= sizeAvailable
      requires 0 < heapEntry && heapEntry + ENTRY_SIZE + sizeAvailable <= QWORD_RANGE
      ensures heapEntrySize == (size + ENTRY_SIZE + TAIL_SIZE) % DWORD_RANGE
      ensures Fits(heapEntry, sizeAvailable, size, alignment) <==>
              ToQword(dataAddress - unalignedDataAddress + heapEntrySize) <= sizeAvailable
      ensures Fits(heapEntry, sizeAvailable, size, alignment) ==>
              dataAddress == Placed(heapEntry, size, tag, alignment).Data()
    {
      FitTestIsExact(heapEntry + ENTRY_SIZE, AlignUpper(heapEntry + ENTRY_SIZE, alignment),
                     size + ENTRY_SIZE + TAIL_SIZE, sizeAvailable);
      unalignedDataAddress := ToQword(heapEntry + ENTRY_SIZE);
      dataAddress := ToQword(AlignUpper(unalignedDataAddress, alignment));
      heapEntrySize := (size + ENTRY_SIZE + TAIL_SIZE) % DWORD_RANGE;
    }

    /** Returns 0 and changes nothing when the block does not fit the space offered; else writes it
        and returns the address just behind it. `limit` is the first address that is not the
        block's; where the code would write past it the model stops. */
    method InitHeapEntry(heapEntry: int, tag: int, size: nat, alignment: int, addToLinkedList: bool,
                         sizeAvailable: int, limit: int, ghost list: seq<Ptr>)
      returns (end: int, newEntry: int, overrun: bool)
      requires PowerOfTwo(alignment) && 0 < alignment < DWORD_RANGE
      requires 0 < size < DWORD_RANGE && size + ENTRY_SIZE + TAIL_SIZE <= sizeAvailable
      requires 0 < heapEntry && heapEntry + ENTRY_SIZE + sizeAvailable <= QWORD_RANGE
      requires Ring(mem.Words(), list) && list[0] == baseAddress + ALLOCATIONS_OFFSET
      requires !OverrunsLimit(Placed(heapEntry, size, tag, alignment), limit) ==>
                 Placed(heapEntry, size, tag, alignment).entry + LIST_ENTRY_OFFSET !in list
      modifies this`heapSizeRemaining, this`numberOfAllocations, this`entries, this`tails, mem
      ensures overrun <==> Fits(heapEntry, sizeAvailable, size, alignment)
                           && OverrunsLimit(Placed(heapEntry, size, tag, alignment), limit)
      ensures end == 0 <==> overrun || !Fits(heapEntry, sizeAvailable, size, alignment)
      ensures end == 0 ==> Memory() == old(Memory())
      ensures end != 0 ==>
        var b := Placed(heapEntry, size, tag, alignment);
        && end == b.End() && newEntry == b.entry
        && Memory() == old(Memory()).(remaining := old(heapSizeRemaining) - b.Footprint() % DWORD_RANGE,
                                      count := old(numberOfAllocations) + 1,
                                      words := mem.Words(),
                                      entries := old(entries)[b.entry := NewRecord(b)],
                                      tails := old(tails)[b.End() - TAIL_SIZE := HEAP_MAGIC])
      ensures end == 0 || !addToLinkedList ==> mem.Words() == old(mem.Words())
      ensures end != 0 && addToLinkedList ==>
        && list[|list| - 1] in old(mem.Words()).flink
        && mem.Words() == InsertAfter(old(mem.Words()), list[|list| - 1], newEntry + LIST_ENTRY_OFFSET)
    {
      hide PowerOfTwo, AlignLower, Fits;
      ghost var b := Placed(heapEntry, size, tag, alignment);
      var unalignedDataAddress, dataAddress, heapEntrySize := Measure(heapEntry, size, tag, alignment, sizeAvailable);
      if sizeAvailable < ToQword(dataAddress - unalignedDataAddress + heapEntrySize) {
        return 0, heapEntry, false;
      }
      newEntry := dataAddress - ENTRY_SIZE;
      end := dataAddress + size + TAIL_SIZE;
      if end > limit || end == QWORD_RANGE {
        return 0, heapEntry, true;
      }
      overrun := false;
      if addToLinkedList {
        InsertBeforeIsInsertAfter(mem.Words(), list, 0, newEntry + LIST_ENTRY_OFFSET);
        mem.InsertTailList(baseAddress + ALLOCATIONS_OFFSET, newEntry + LIST_ENTRY_OFFSET, list, 0);
      }
      entries := entries[newEntry := HeapEntry(HEAP_MAGIC, tag, size, dataAddress - newEntry)];
      tails := tails[dataAddress + size := HEAP_MAGIC];
      heapSizeRemaining := heapSizeRemaining - heapEntrySize;
      numberOfAllocations := numberOfAllocations + 1;
    }

    /** The record and the tail behind its data are as they should be. */
    predicate EntryIsGood(heapEntry: int, tag: int)
      reads this
    {
      && heapEntry in entries
      && var e := entries[heapEntry];
      && e.magic == HEAP_MAGIC
      && heapEntry + ENTRY_SIZE + e.size in tails && tails[heapEntry + ENTRY_SIZE + e.size] == HEAP_MAGIC
      && e.tag != 0 && e.tag == tag
    }

    /** _ValidateHeapEntry adds the total up in a DWORD. For an oversized block it therefore takes
        for the tail whatever lies in the record or right before it: either answer is possible. */
    method ValidateHeapEntry(heapEntry: int, tag: int) returns (ok: bool)
      requires heapEntry in entries && 0 < entries[heapEntry].size < DWORD_RANGE
      ensures entries[heapEntry].size <= LARGEST_COUNTED_SIZE ==> (ok <==> EntryIsGood(heapEntry, tag))
      ensures ok ==> entries[heapEntry].tag == tag != 0
    {
      var e := entries[heapEntry];
      var totalSize := (ENTRY_SIZE + e.size + TAIL_SIZE) % DWORD_RANGE;
      var tail := heapEntry + totalSize - TAIL_SIZE;
      var tailOk: bool := *;
      if totalSize == ENTRY_SIZE + e.size + TAIL_SIZE {
        tailOk := tail in tails && tails[tail] == HEAP_MAGIC;
      }
      ok := e.magic == HEAP_MAGIC && tailOk && e.tag != 0 && tag == e.tag;
    }

    lemma BlockRecord(i: nat)
      requires Valid() && i < |state.arena.blocks|
      ensures var b := state.arena.blocks[i];
        && b.Inside(baseAddress, heapSizeMaximum)
        && b.entry in entries && entries[b.entry] == NewRecord(b)
        && EntryIsGood(b.entry, b.tag)
        && LinkedAt(mem.Words(), ListOf(state.arena), i + 1)
    {
      assert HoldsBlock(entries, tails, state.arena.blocks[i]);
    }

    /** Puts the new entry behind the last one, if its padding fits too. */
    method AppendEntry(size: nat, tag: int, alignment: int, remainingSizeUntilEnd: int)
      returns (r: Attempt)
      requires Valid()
      requires PowerOfTwo(alignment) && 0 < alignment < DWORD_RANGE
      requires 0 < size < DWORD_RANGE && tag != 0
      requires remainingSizeUntilEnd == TailSpace(state.arena) && size + ENTRY_SIZE + TAIL_SIZE <= remainingSizeUntilEnd
      modifies this, mem
      ensures !r.BadPredecessor?
      ensures r.NoFit? <==> !Fits(FreeAddress(old(state.arena)), TailSpace(old(state.arena)), size, alignment)
      ensures !r.NoFit? ==>
        var a, b := old(state.arena), Placed(FreeAddress(old(state.arena)), size, tag, alignment);
        && (r.OutOfPlace? <==> OverrunsLimit(b, a.base + a.max))
        && (r.Inserted? ==> r.entry == b.entry && state == StateWithBlock(old(state), |a.blocks|, b))
      ensures !r.Inserted? ==> Memory() == old(Memory()) && state == old(state)
      ensures r.Inserted? ==> r.entry > 0 && r.entry in entries && entries[r.entry].offset == ENTRY_SIZE
      ensures Valid()
    {
      hide PowerOfTwo, AlignLower, Fits, HasRoom, Used, Oversized, InOrder, InsertAfter, LinkedAt, ListOf;
      ghost var f, s, list, n := Memory(), state, ListOf(state.arena), |state.arena.blocks|;
      ghost var b := Placed(freeAddress, size, tag, alignment);
      RoomIsInside(s.arena, n);
      RoomIsNoOverrun(s.arena, n, size, tag, alignment);
      if HasRoom(s.arena, n, size, alignment) {
        WithBlockRepresents(f, s, n, size, tag, alignment);
      }
      var end, newEntry, overrun := InitHeapEntry(freeAddress, tag, size, alignment, true, remainingSizeUntilEnd,
                                                  baseAddress + heapSizeMaximum, list);
      if end == 0 {
        return if overrun then OutOfPlace else NoFit;
      }
      freeAddress := end;
      state := StateWithBlock(s, n, b);
      assert Memory() == WithBlock(f, list, n, b);
      r := Inserted(newEntry);
    }

    /** Puts the new entry between list positions `p` and `p + 1`, if its padding fits too and the
        entry before it passes the debug check. */
    method InsertBetween(previousEntry: Ptr, previousHeapEntry: int, startAddress: int, sizeBetweenEntries: int,
                         size: nat, tag: int, alignment: int, ghost p: nat)
      returns (r: Attempt)
      requires Valid() && 1 <= p < |state.arena.blocks|
      requires PowerOfTwo(alignment) && 0 < alignment < DWORD_RANGE
      requires 0 < size < DWORD_RANGE && tag != 0
      requires previousEntry == ListOf(state.arena)[p] && previousHeapEntry == state.arena.blocks[p - 1].entry
      requires startAddress == Floor(state.arena, p)
      requires sizeBetweenEntries == Room(state.arena, p) && size + ENTRY_SIZE + TAIL_SIZE <= sizeBetweenEntries
      modifies this, mem
      ensures r.NoFit? <==> !GapFits(old(state.arena), p, size, alignment)
      ensures !r.NoFit? ==>
        var a, b := old(state.arena), Placed(Floor(old(state.arena), p), size, tag, alignment);
        && (r.OutOfPlace? <==> OverrunsLimit(b, a.blocks[p].entry))
        && (r.BadPredecessor? ==> !a.blocks[p - 1].Counted())
        && (r.Inserted? ==> r.entry == b.entry && state == StateWithBlock(old(state), p, b))
      ensures r.NoFit? || r.OutOfPlace? ==> Memory() == old(Memory()) && state == old(state)
      ensures r.Inserted? ==> r.entry > 0 && r.entry in entries && entries[r.entry].offset == ENTRY_SIZE
      ensures !r.BadPredecessor? ==> Valid()
    {
      hide PowerOfTwo, AlignLower, Fits, HasRoom, Used, Oversized, InOrder, InsertAfter, LinkedAt, ListOf;
      ghost var f, s, list := Memory(), state, ListOf(state.arena);
      ghost var b := Placed(startAddress, size, tag, alignment);
      RoomIsInside(s.arena, p);
      RoomIsNoOverrun(s.arena, p, size, tag, alignment);
      BlockRecord(p - 1);
      if HasRoom(s.arena, p, size, alignment) {
        WithBlockRepresents(f, s, p, size, tag, alignment);
        ListOfAvoids(s.arena, p, b);
      }
      var end, newEntry, overrun := InitHeapEntry(startAddress, tag, size, alignment, false, sizeBetweenEntries,
                                                  startAddress + sizeBetweenEntries, list);
      if end == 0 {
        return if overrun then OutOfPlace else NoFit;
      }
      var ok := ValidateHeapEntry(previousHeapEntry, entries[previousHeapEntry].tag);
      if !ok {
        return BadPredecessor;
      }
      mem.InsertHeadList(previousEntry, newEntry + LIST_ENTRY_OFFSET, list, p);
      entryToRestartSearch := newEntry + LIST_ENTRY_OFFSET;
      state := StateWithBlock(s, p, b);
      assert Memory() == WithBlock(f, list, p, b);
      r := Inserted(newEntry);
    }

    /** Compares the gap before the current entry with the request and fills it if it fits. */
    method TryGap(previousEntry: Ptr, previousHeapEntry: int, curHeapEntry: int, size: nat, tag: int, alignment: int,
                  ghost k: nat, ghost p: nat, ghost c: Cursor)
      returns (r: Attempt)
      requires Valid() && Walking(state.arena, k, p, c) && 0 < p < |state.arena.blocks|
      requires PowerOfTwo(alignment) && 0 < alignment < DWORD_RANGE
      requires 0 < size < DWORD_RANGE && tag != 0
      requires !Trusted(k, p) ==> p == 1 && 3 <= k
      requires previousEntry == c.previousEntry && curHeapEntry == c.curEntry - LIST_ENTRY_OFFSET
      requires previousHeapEntry == state.arena.blocks[(if Trusted(k, p) then p else |state.arena.blocks|) - 1].entry
      modifies this, mem
      ensures r.NoFit? <==> !GapTaken(old(state.arena), k, p, size, alignment)
      ensures !r.NoFit? ==>
        var a, b := old(state.arena), Placed(Floor(old(state.arena), p), size, tag, alignment);
        && (r.OutOfPlace? <==> OverrunsLimit(b, a.blocks[p].entry))
        && (r.BadPredecessor? ==> !a.blocks[p - 1].Counted())
        && (r.Inserted? ==> r.entry == b.entry && state == StateWithBlock(old(state), p, b))
      ensures r.NoFit? || r.OutOfPlace? ==> Memory() == old(Memory()) && state == old(state)
      ensures r.Inserted? ==> r.entry > 0 && r.entry in entries && entries[r.entry].offset == ENTRY_SIZE
      ensures !r.BadPredecessor? ==> Valid()
    {
      hide PowerOfTwo, AlignLower, Used, InOrder, InsertAfter, LinkedAt, ListOf, Ring, Placed, ToQword, ToInt64;
      ghost var a := state.arena;
      HeadIsFirstOnly(a, p + 1);
      BlockRecord(if Trusted(k, p) then p - 1 else |a.blocks| - 1);
      var startAddress := ToQword(previousHeapEntry + ENTRY_SIZE + entries[previousHeapEntry].size + TAIL_SIZE);
      var sizeBetweenEntries := ToInt64(curHeapEntry - startAddress);
      GapSize(a, k, p, c, startAddress);
      r := NoFit;
      if sizeBetweenEntries >= size + ENTRY_SIZE + TAIL_SIZE {
        r := InsertBetween(previousEntry, previousHeapEntry, startAddress, sizeBetweenEntries, size, tag, alignment, p);
      }
    }

    /** The wrap-around walk over neighbouring entries: the result of the first place that is taken,
        or none, or stopped by the failed ASSERT that the predecessor record is not NULL. */
    method SearchBetweenEntries(size: nat, tag: int, alignment: int)
      returns (r: SearchResult)
      requires Valid() && state.restart.At? && state.arena.blocks != []
      requires PowerOfTwo(alignment) && 0 < alignment < DWORD_RANGE
      requires 0 < size < DWORD_RANGE && tag != 0
      modifies this, mem
      ensures r.NullPredecessor? <==> SearchPanics(|old(state.arena.blocks)|, old(state.restart.position))
      ensures r.Tried? ==>
        match FirstFit(old(state.arena), Probes(|old(state.arena.blocks)|, old(state.restart.position)), size, alignment)
        case None => r.attempt.NoFit?
        case Some(i) =>
          var a, b := old(state.arena), Placed(Floor(old(state.arena), i), size, tag, alignment);
          && 0 < i < |a.blocks| && !r.attempt.NoFit?
          && (r.attempt.OutOfPlace? <==> OverrunsLimit(b, a.blocks[i].entry))
          && (r.attempt.BadPredecessor? ==> !a.blocks[i - 1].Counted())
          && (r.attempt.Inserted? ==> r.attempt.entry == b.entry && state == StateWithBlock(old(state), i, b))
      ensures r.Tried? && r.attempt.Inserted? ==>
        var entry := r.attempt.entry; entry > 0 && entry in entries && entries[entry].offset == ENTRY_SIZE
      ensures r.NullPredecessor? || r.attempt.NoFit? || r.attempt.OutOfPlace? ==> Memory() == old(Memory()) && state == old(state)
      ensures (r.Tried? && r.attempt.BadPredecessor?) || Valid()
    {
      hide PowerOfTwo, Represents, Ordered, Walking, FirstFit, Probes, ProbesFrom, ListOf, Placed;
      ghost var f, s := Memory(), state;
      ghost var a, n, k := s.arena, |s.arena.blocks|, s.restart.position;
      ghost var p: nat := NextPosition(n, k);
      var head := baseAddress + ALLOCATIONS_OFFSET;
      var restart := entryToRestartSearch;
      RestartPosition(f, s);
      FollowFlink(f, s, k);
      FollowFlink(f, s, p);
      ProbesFromStart(n, k);
      StartWalking(a, k);

      var previousEntry := mem.flink[restart];
      var previousHeapEntry := previousEntry - LIST_ENTRY_OFFSET;
      var curHeapEntry := 0;
      var curEntry := mem.flink[previousEntry];
      WalkingPointers(a, k, p, Cursor(previousEntry, previousHeapEntry, curEntry, curHeapEntry));
      while restart != curEntry
        invariant Memory() == f && state == s
        invariant Walking(a, k, p, Cursor(previousEntry, previousHeapEntry, curEntry, curHeapEntry))
        invariant FirstFit(a, Probes(n, k), size, alignment) == FirstFit(a, ProbesFrom(n, k, p), size, alignment)
        decreases if p < k then k - 1 - p else n - p + k
      {
        ghost var c := Cursor(previousEntry, previousHeapEntry, curEntry, curHeapEntry);
        ghost var q := NextPosition(n, p);
        WalkingPointers(a, k, p, c);
        FollowFlink(f, s, q);
        FirstFitAdvance(a, k, p, size, alignment);
        if curEntry == head || previousEntry == head {
          StepAroundHead(a, k, p, c, mem.flink[curEntry]);
        } else {
          NullPredecessorMeansPanic(a, k, p, c);
          if previousHeapEntry == 0 {
            return NullPredecessor;
          }
          curHeapEntry := curEntry - LIST_ENTRY_OFFSET;
          var attempt := TryGap(previousEntry, previousHeapEntry, curHeapEntry, size, tag, alignment, k, p, c);
          if !attempt.NoFit? {
            return Tried(attempt);
          }
          StepPastEntry(a, k, p, c, mem.flink[curEntry]);
        }
        previousEntry := curEntry;
        previousHeapEntry := curHeapEntry;
        curEntry := mem.flink[curEntry];
        p := q;
      }
      WalkingPointers(a, k, p, Cursor(previousEntry, previousHeapEntry, curEntry, curHeapEntry));
      EndMeansNoPanic(a, k, p, Cursor(previousEntry, previousHeapEntry, curEntry, curHeapEntry), size, alignment);
      r := Tried(NoFit);
    }

    /** A request that reaches the pool allocator. With `panicIfFail` a failure is a panic. Whatever
        the size, the result is that of the policy; but an oversized block may overrun its place, and
        a block put right behind an oversized one may fail the check of its predecessor. */
    method AllocatePoolWithTag(panicIfFail: bool, allocationSize: nat, tag: int, allocationAlignment: int)
      returns (r: Pointer)
      requires Valid()
      requires allocationSize < DWORD_RANGE && 0 <= tag < DWORD_RANGE
      requires allocationAlignment == 0 || (PowerOfTwo(allocationAlignment) && allocationAlignment < DWORD_RANGE)
      requires !Dangles(state, allocationSize, tag, allocationAlignment)
      modifies this, mem
      ensures Outcomes(old(state), panicIfFail, allocationSize, tag, allocationAlignment, r, state)
      // the same in terms of the arguments
      ensures r.Address? ==>
        r.address % (if allocationAlignment == 0 then 16 else allocationAlignment) == 0
      ensures r.Address? ==>
        var a := old(state.arena);
        exists i: nat ::
          && i <= |a.blocks|
          && Floor(a, i) + 0x20 <= r.address
          && r.address < Floor(a, i) + 0x20 + (if allocationAlignment == 0 then 16 else allocationAlignment)
          && state.arena.blocks == a.blocks[..i] + [Block(r.address - 0x20, allocationSize, tag)] + a.blocks[i..]
      ensures !r.Address? ==> state == old(state)
      ensures Valid() || (r == Panic && state == old(state) && MayFailCheck(old(state), allocationSize, tag, allocationAlignment))
    {
      hide PowerOfTwo, AlignLower, Fits, Represents, Ordered, FirstFit, Probes, ListOf, Outcomes, MayFailCheck, Allocate, Position,
           Placed, OverrunsLimit, SearchPanics;
      ghost var f, s := Memory(), state;
      var failure := Failure(panicIfFail);
      var alignment := if allocationAlignment == 0 then DEFAULT_ALIGNMENT else allocationAlignment;
      assert alignment == Effective(allocationAlignment) > 0;
      HeaderFields(f, s);
      if allocationSize == 0 || tag == 0 {
        RefusedOutcome(s, panicIfFail, allocationSize, tag, allocationAlignment);
        return failure;
      }
      var sizeRequired := allocationSize + ENTRY_SIZE + TAIL_SIZE;
      if sizeRequired > heapSizeRemaining {
        RefusedOutcome(s, panicIfFail, allocationSize, tag, allocationAlignment);
        return failure;
      }
      var remainingSizeUntilEnd := ToInt64(baseAddress + heapSizeMaximum - freeAddress - ENTRY_SIZE);
      if sizeRequired <= remainingSizeUntilEnd {
        var attempt := AppendEntry(allocationSize, tag, alignment, remainingSizeUntilEnd);
        if !attempt.NoFit? {
          AppendedOutcome(s, panicIfFail, allocationSize, tag, allocationAlignment);
          return if attempt.OutOfPlace? then Overrun else Address(attempt.entry + entries[attempt.entry].offset);
        }
      }
      if sizeRequired > remainingSizeUntilEnd {
        TooLargeForTail(s, allocationSize, alignment);
      }
      var remainingSizeBeforeCurrent := heapSizeRemaining - remainingSizeUntilEnd - ENTRY_SIZE;
      if sizeRequired > remainingSizeBeforeCurrent {
        RefusedOutcome(s, panicIfFail, allocationSize, tag, allocationAlignment);
        return failure;
      }
      var empty := mem.IsListEmpty(baseAddress + ALLOCATIONS_OFFSET, ListOf(s.arena));
      assert !empty;
      NotDangling(s, allocationSize, tag, allocationAlignment);
      SearchedOutcome(s, panicIfFail, allocationSize, tag, allocationAlignment);
      var found := SearchBetweenEntries(allocationSize, tag, alignment);
      match found {
        case NullPredecessor => r := Panic;
        case Tried(NoFit) => r := failure;
        case Tried(OutOfPlace) => r := Overrun;
        case Tried(BadPredecessor) =>
          r := Panic;
          state := s;
        case Tried(Inserted(newEntry)) => r := Address(newEntry + entries[newEntry].offset);
      }
    }

    /** Frees a live allocation. A wrong tag panics before anything changes, and the size of an
        oversized block panics when it has just been taken off the list, if not before. */
    method FreePoolWithTag(memoryAddress: int, tag: int, ghost i: nat) returns (r: FreeResult)
      requires Valid()
      requires i < |state.arena.blocks| && state.arena.blocks[i].Data() == memoryAddress
      modifies this, mem
      ensures r.Released? <==> Owns(old(state.arena), memoryAddress, tag, i) && tag != 0 && old(state.arena.blocks[i]).Counted()
      ensures r.TooLarge? ==> Owns(old(state.arena), memoryAddress, tag, i) && !old(state.arena.blocks[i]).Counted()
      ensures state == if r.Released? then FreeAt(old(state), i) else old(state)
      ensures r.BadEntry? ==> Memory() == old(Memory())
      ensures r.TooLarge? ==>
        var entry := memoryAddress - ENTRY_SIZE + LIST_ENTRY_OFFSET;
        && entry in old(mem.flink) && entry in old(mem.blink)
        && Memory() == old(Memory()).(words := Unlink(old(mem.Words()), entry))
      ensures r.TooLarge? || Valid()
      // the same in terms of the block
      ensures var b := old(state.arena.blocks[i]);
        && (r.Released? <==> tag != 0 && b.tag == tag && b.size + 0x24 <= 0xFFFF_FFFF)
        && (r.Released? ==>
              && state.arena.blocks == old(state.arena.blocks[..i] + state.arena.blocks[i + 1..])
              && state.arena.remaining == old(state.arena.remaining) + b.size + 0x24)
    {
      hide Represents, Ring, Unlink, LinkedAt, ListOf, FreeAt, Ordered;
      FreedIs(state, i);
      ghost var f, s, list := Memory(), state, ListOf(state.arena);
      FreedBlock(f, s, i);
      HeaderFields(f, s);
      if tag == 0 {
        return BadEntry;
      }
      var heapEntry := memoryAddress - ENTRY_SIZE;
      var endAddress := memoryAddress + entries[heapEntry].size + TAIL_SIZE;
      var ok := ValidateHeapEntry(heapEntry, tag);
      if !ok {
        return BadEntry;
      }
      if s.arena.blocks[i].Counted() {
        WithoutBlockRepresents(f, s, i);
      }
      var listEntry := mem.blink[heapEntry + LIST_ENTRY_OFFSET];
      var previousAddress;
      if baseAddress + ALLOCATIONS_OFFSET != listEntry {
        var previousHeapEntry := listEntry - LIST_ENTRY_OFFSET;
        previousAddress := previousHeapEntry + ENTRY_SIZE + entries[previousHeapEntry].size + TAIL_SIZE;
      } else {
        previousAddress := baseAddress + HEADER_SIZE;
      }
      assert previousAddress == Floor(s.arena, i);
      var _ := mem.RemoveEntryList(heapEntry + LIST_ENTRY_OFFSET, list, i + 1);
      var heapEntrySize := entries[heapEntry].size + ENTRY_SIZE + TAIL_SIZE;
      if !(heapEntrySize < DWORD_RANGE) {
        return TooLarge;
      }
      entries := entries - {heapEntry};
      tails := tails - {endAddress - TAIL_SIZE};
      heapSizeRemaining := heapSizeRemaining + heapEntrySize;
      numberOfAllocations := numberOfAllocations - 1;
      if endAddress == freeAddress {
        freeAddress := previousAddress;
      }
      state := FreeAt(s, i);
      assert Memory() == WithoutBlock(f, s.arena, i);
      r := Released;
    }
  }

  /** Creates the heap in the memory at `baseAddress`, if there is any and enough of it, and a place
      for its address. The memory must not wrap around the address space nor be half of it. */
  method HeapInit(baseAddress: int, memoryAvailable: int, heapHeader: Ptr) returns (status: InitStatus)
    requires 0 <= baseAddress && 0 <= memoryAvailable < QWORD_RANGE / 2
    requires baseAddress + memoryAvailable <= QWORD_RANGE
    ensures status.InvalidParameter1? <==> baseAddress == 0
    ensures status.HeapTooSmall? <==> baseAddress != 0 && memoryAvailable < 0x1_0000
    ensures status.InvalidParameter3? <==> baseAddress != 0 && memoryAvailable >= 0x1_0000 && heapHeader == 0
    ensures status.Initialized? ==>
      && fresh(status.heap) && fresh(status.heap.mem)
      && status.heap.Valid() && status.heap.state == Initial(baseAddress, memoryAvailable)
      && status.heap.state.arena == Arena(baseAddress, memoryAvailable, memoryAvailable - 0x48, [])
  {
    if baseAddress == 0 {
      return InvalidParameter1;
    }
    if memoryAvailable < MINIMUM_SIZE {
      return HeapTooSmall;
    }
    if heapHeader == 0 {
      return InvalidParameter3;
    }
    var heap := new Heap(baseAddress, memoryAvailable);
    status := Initialized(heap);
  }
}
