/** What the heap means: a sequence of blocks in address order inside one arena, and the
    allocation policy as a function on it. The pointer-level heap is proved against this.
 */
module HeapArena {
  import opened Arithmetic
  import opened Counting

  const HEADER_SIZE := 0x48      // sizeof(HEAP_HEADER)
  const ENTRY_SIZE := 0x20       // sizeof(HEAP_ENTRY)
  const TAIL_SIZE := 4           // sizeof(HEAP_TAIL)
  const MINIMUM_SIZE := 0x1_0000
  const DWORD_RANGE := 0x1_0000_0000
  const QWORD_RANGE := 0x1_0000_0000_0000_0000

  /** The largest request whose header, data and tail together still fit a DWORD. */
  const LARGEST_COUNTED_SIZE := DWORD_RANGE - 1 - ENTRY_SIZE - TAIL_SIZE

  datatype Option<+T> = None | Some(value: T)

  /** An allocation: the address of its HEAP_ENTRY, the bytes asked for, and its tag. */
  datatype Block = Block(entry: int, size: nat, tag: int) {
    function Data(): int { entry + ENTRY_SIZE }
    function End(): int { entry + ENTRY_SIZE + size + TAIL_SIZE }
    function Footprint(): nat { ENTRY_SIZE + size + TAIL_SIZE }

    /** The footprint fits a DWORD, so that it is counted in full. */
    predicate Counted() { Footprint() < DWORD_RANGE }

    predicate Inside(base: int, max: int) {
      && 0 < size < DWORD_RANGE && tag != 0
      && base + HEADER_SIZE <= entry && End() <= base + max
    }
  }

  datatype Arena = Arena(base: int, max: int, remaining: int, blocks: seq<Block>)

  /** The restart entry: a position of the list (0 is the head), or the address of an entry that was
      freed and is not in the list. */
  datatype Restart = At(position: nat) | Freed(entry: int)

  datatype State = State(arena: Arena, restart: Restart)

  datatype Outcome =
    | Running(state: State, address: int)   // address 0 is NULL
    | Panicked
    | Dangling                              // the search would follow a freed restart entry

  /** Where block `i` could start at the earliest: right behind its predecessor. */
  function Floor(a: Arena, i: nat): int
    requires i <= |a.blocks|
  {
    if i == 0 then a.base + HEADER_SIZE else a.blocks[i - 1].End()
  }

  function FreeAddress(a: Arena): int {
    Floor(a, |a.blocks|)
  }

  function Ceiling(a: Arena, i: nat): int
    requires i <= |a.blocks|
  {
    if i < |a.blocks| then a.blocks[i].entry else a.base + a.max
  }

  function FootprintOf(b: Block): nat { b.Footprint() }

  function ExcessOf(b: Block): nat { if b.Counted() then 0 else 1 }

  function Used(blocks: seq<Block>): nat { Total(blocks, FootprintOf) }

  /** How many blocks are too large to be counted in full. */
  function Oversized(blocks: seq<Block>): nat { Total(blocks, ExcessOf) }

  /** Bytes lying between two neighbours (or the header and the first block). */
  function GapsBefore(a: Arena, n: nat): int
    requires n <= |a.blocks|
  {
    if n == 0 then 0 else GapsBefore(a, n - 1) + a.blocks[n - 1].entry - Floor(a, n - 1)
  }

  function TailSpace(a: Arena): int {
    a.base + a.max - FreeAddress(a) - ENTRY_SIZE
  }

  /** The space the allocator offers at list position `i`: a gap, or the tail. */
  function Room(a: Arena, i: nat): int
    requires i <= |a.blocks|
  {
    if i < |a.blocks| then a.blocks[i].entry - Floor(a, i) else TailSpace(a)
  }

  ghost predicate Sized(base: int, max: int) {
    0 < base && MINIMUM_SIZE <= max < QWORD_RANGE / 2 && base + max <= QWORD_RANGE
  }

  /** Blocks lie inside the arena, in strictly increasing address order, without overlap. */
  ghost predicate Ordered(a: Arena) {
    && Sized(a.base, a.max)
    && (forall i :: 0 <= i < |a.blocks| ==> a.blocks[i].Inside(a.base, a.max))
    && InOrder(a.blocks)
  }

  ghost predicate InOrder(blocks: seq<Block>) {
    forall i, j :: 0 <= i < j < |blocks| ==> blocks[i].End() <= blocks[j].entry
  }

  ghost predicate Accounted(a: Arena) {
    a.remaining == a.max - HEADER_SIZE - Used(a.blocks)
  }

  /** What the header's count of remaining bytes is: each oversized block is charged 4 GB less
      than it takes. */
  ghost predicate Charged(a: Arena) {
    a.remaining == a.max - HEADER_SIZE - Used(a.blocks) + DWORD_RANGE * Oversized(a.blocks)
  }

  ghost predicate Wf(s: State) {
    && Ordered(s.arena) && Charged(s.arena)
    && (s.restart.At? ==> s.restart.position <= |s.arena.blocks|)
    && (s.restart.Freed? ==> forall b :: b in s.arena.blocks ==> b.entry != s.restart.entry)
  }

  predicate PowerOfTwo(n: int)
    decreases n
  {
    n == 1 || (n > 1 && n % 2 == 0 && PowerOfTwo(n / 2))
  }

  /** AlignAddressLower and AlignAddressUpper: clearing the low bits of a power of two. */
  function AlignLower(address: int, alignment: int): (r: int)
    requires PowerOfTwo(alignment)
    ensures r <= address < r + alignment && r % alignment == 0
  {
    LowerIsMultiple(address, alignment);
    address - address % alignment
  }

  function AlignUpper(address: int, alignment: int): (r: int)
    requires PowerOfTwo(alignment)
    ensures address <= r < address + alignment && r % alignment == 0
  {
    AlignLower(address + alignment - 1, alignment)
  }

  lemma LowerIsMultiple(address: int, alignment: int)
    requires alignment > 0
    ensures (address - address % alignment) % alignment == 0
  {
    var q := address / alignment;
    assert address - address % alignment == alignment * q;
    MultipleModulo(q, alignment);
  }

  /** The block for a request placed as low as its alignment allows, at or behind `floor`. */
  function Placed(floor: int, size: nat, tag: int, alignment: int): (b: Block)
    requires PowerOfTwo(alignment)
    ensures b.Data() % alignment == 0 && floor <= b.entry < floor + alignment
    ensures b.size == size && b.tag == tag
  {
    Block(AlignUpper(floor + ENTRY_SIZE, alignment) - ENTRY_SIZE, size, tag)
  }

  /** The fit test: the size alone is compared in 64 bits, but together with the alignment
      padding only its low 32 bits are. */
  predicate Fits(floor: int, available: int, size: nat, alignment: int)
    requires PowerOfTwo(alignment)
  {
    && size + ENTRY_SIZE + TAIL_SIZE <= available
    && AlignUpper(floor + ENTRY_SIZE, alignment) - (floor + ENTRY_SIZE)
       + (size + ENTRY_SIZE + TAIL_SIZE) % DWORD_RANGE <= available
  }

  function Padding(floor: int, alignment: int): (r: int)
    requires PowerOfTwo(alignment)
    ensures 0 <= r < alignment
  {
    AlignUpper(floor + ENTRY_SIZE, alignment) - (floor + ENTRY_SIZE)
  }

  /** The padded block lies between its list neighbours, or inside the arena. The fit test says so
      only for blocks that are counted in full. */
  predicate HasRoom(a: Arena, i: nat, size: nat, alignment: int)
    requires i <= |a.blocks| && PowerOfTwo(alignment)
  {
    Padding(Floor(a, i), alignment) + ENTRY_SIZE + size + TAIL_SIZE <= Ceiling(a, i) - Floor(a, i)
  }

  function Put(a: Arena, i: nat, b: Block): Arena
    requires i <= |a.blocks|
  {
    a.(blocks := a.blocks[..i] + [b] + a.blocks[i..],
       remaining := a.remaining - b.Footprint() % DWORD_RANGE)
  }

  function Take(a: Arena, i: nat): Arena
    requires i < |a.blocks|
  {
    a.(blocks := a.blocks[..i] + a.blocks[i + 1..],
       remaining := a.remaining + a.blocks[i].Footprint())
  }

  function Range(lo: int, hi: int): (r: seq<int>)
    ensures |r| == if lo < hi then hi - lo else 0
    ensures forall j :: 0 <= j < |r| ==> r[j] == lo + j
  {
    if lo < hi then seq(hi - lo, j requires 0 <= j => lo + j) else []
  }

  /** The gaps looked at, in order, when `n` blocks are listed and the restart entry is at
      list position `k`. Gap `i` lies between blocks `i - 1` and `i`. */
  function Probes(n: nat, k: nat): (r: seq<int>)
    ensures k <= n ==> forall j :: 0 <= j < |r| ==> 0 <= r[j] < n
  {
    if k == 0 then Range(1, n) else Range(k + 1, n) + Range(2, k - 1)
  }

  /** The wrapped-around search trips over its NULL predecessor record. */
  predicate SearchPanics(n: nat, k: nat) {
    3 <= k && n <= k + 1
  }

  predicate GapFits(a: Arena, i: nat, size: nat, alignment: int)
    requires i < |a.blocks| && PowerOfTwo(alignment)
  {
    Fits(Floor(a, i), Room(a, i), size, alignment)
  }

  function FirstFit(a: Arena, probes: seq<int>, size: nat, alignment: int): (r: Option<nat>)
    requires PowerOfTwo(alignment)
    requires forall j :: 0 <= j < |probes| ==> 0 <= probes[j] < |a.blocks|
    ensures r.Some? ==> exists j :: 0 <= j < |probes| && probes[j] == r.value && GapFits(a, r.value, size, alignment)
                                    && forall l :: 0 <= l < j ==> !GapFits(a, probes[l], size, alignment)
    ensures r.None? ==> forall j :: 0 <= j < |probes| ==> !GapFits(a, probes[j], size, alignment)
  {
    if probes == [] then None
    else if GapFits(a, probes[0], size, alignment) then Some(probes[0])
    else FirstFit(a, probes[1..], size, alignment)
  }

  /** The restart entry after a block is put at position `i`: that block, if it was put into a gap; and
      if it was put at the end, at the address of the freed restart entry, that is live again. */
  function RestartWith(s: State, i: nat, b: Block): Restart {
    if i < |s.arena.blocks| || s.restart == Freed(b.entry) then At(i + 1) else s.restart
  }

  function Allocate(s: State, size: nat, tag: int, alignment: int): Outcome
    requires PowerOfTwo(alignment)
    requires s.restart.At? ==> s.restart.position <= |s.arena.blocks|
  {
    var a := s.arena;
    var n := |a.blocks|;
    if size == 0 || tag == 0 || size + ENTRY_SIZE + TAIL_SIZE > a.remaining then Running(s, 0)
    else if Fits(FreeAddress(a), TailSpace(a), size, alignment) then
      var b := Placed(FreeAddress(a), size, tag, alignment);
      Running(State(Put(a, n, b), RestartWith(s, n, b)), b.Data())
    else if size + ENTRY_SIZE + TAIL_SIZE > a.remaining - TailSpace(a) - ENTRY_SIZE then Running(s, 0)
    else if s.restart.Freed? then Dangling
    else if SearchPanics(n, s.restart.position) then Panicked
    else
      match FirstFit(a, Probes(n, s.restart.position), size, alignment)
      case None => Running(s, 0)
      case Some(i) =>
        var b := Placed(Floor(a, i), size, tag, alignment);
        Running(State(Put(a, i, b), RestartWith(s, i, b)), b.Data())
  }

  /** The list position at which an allocation that succeeds puts its block. */
  function Position(s: State, size: nat, alignment: int): (i: nat)
    requires PowerOfTwo(alignment)
    requires s.restart.At? ==> s.restart.position <= |s.arena.blocks|
    ensures i <= |s.arena.blocks|
  {
    var a, n := s.arena, |s.arena.blocks|;
    if s.restart.Freed? || Fits(FreeAddress(a), TailSpace(a), size, alignment) then n
    else
      match FirstFit(a, Probes(n, s.restart.position), size, alignment)
      case None => n
      case Some(i) => i
  }

  /** The request puts no block, or one that stays within its place. */
  predicate StaysInPlace(s: State, size: nat, tag: int, alignment: int)
    requires PowerOfTwo(alignment)
    requires s.restart.At? ==> s.restart.position <= |s.arena.blocks|
    requires Allocate(s, size, tag, alignment).Running?
  {
    Allocate(s, size, tag, alignment).state == s || HasRoom(s.arena, Position(s, size, alignment), size, alignment)
  }

  /** The block a caller may free: the address was returned and not freed since, same tag. */
  predicate Owns(a: Arena, address: int, tag: int, i: nat) {
    i < |a.blocks| && a.blocks[i].Data() == address && a.blocks[i].tag == tag
  }

  function FreeAt(s: State, i: nat): State
    requires i < |s.arena.blocks|
  {
    State(Take(s.arena, i),
          match s.restart
          case Freed(entry) => Freed(entry)
          case At(k) =>
            if k == i + 1 then Freed(s.arena.blocks[i].entry) else if k > i + 1 then At(k - 1) else At(k))
  }

  lemma FreedIs(s: State, i: nat)
    requires i < |s.arena.blocks|
    ensures var b := s.arena.blocks[i];
      && FreeAt(s, i).arena.blocks == s.arena.blocks[..i] + s.arena.blocks[i + 1..]
      && FreeAt(s, i).arena.remaining == s.arena.remaining + b.size + 0x24
      && (b.Counted() <==> b.size + 0x24 <= 0xFFFF_FFFF)
  {
  }

  /** The heap right after initialization. */
  function Initial(base: int, max: int): State {
    State(Arena(base, max, max - HEADER_SIZE, []), At(0))
  }

  // ---------------------------------------------------------------- accounting

  lemma TotalPut(xs: seq<Block>, i: nat, b: Block, weight: Block -> nat)
    requires i <= |xs|
    ensures Total(xs[..i] + [b] + xs[i..], weight) == Total(xs, weight) + weight(b)
  {
    hide Total;
    TotalAround(xs[..i], b, xs[i..], weight);
    assert xs[..i] + xs[i..] == xs;
  }

  lemma TotalTake(xs: seq<Block>, i: nat, weight: Block -> nat)
    requires i < |xs|
    ensures Total(xs[..i] + xs[i + 1..], weight) == Total(xs, weight) - weight(xs[i])
  {
    hide Total;
    var before, b, after := xs[..i], xs[i], xs[i + 1..];
    TotalAround(before, b, after, weight);
    assert before + [b] + after == xs;
  }

  lemma {:induction false} OversizedIffSome(blocks: seq<Block>)
    ensures Oversized(blocks) >= 0
    ensures Oversized(blocks) == 0 <==> forall b :: b in blocks ==> b.Counted()
  {
    if blocks != [] {
      var front, last := blocks[..|blocks| - 1], blocks[|blocks| - 1];
      OversizedIffSome(front);
      assert Oversized(blocks) == Oversized(front) + ExcessOf(last);
      assert forall b :: b in blocks <==> b in front || b == last;
    }
  }

  /** The count of remaining bytes is exact iff no block listed is oversized. */
  lemma AccountedIffAllCounted(a: Arena)
    requires Charged(a)
    ensures Accounted(a) <==> forall b :: b in a.blocks ==> b.Counted()
  {
    OversizedIffSome(a.blocks);
  }

  /** Blocks and gaps tile the arena from its header to any list position. */
  lemma {:induction false} TilesPrefix(a: Arena, n: nat)
    requires n <= |a.blocks|
    ensures Floor(a, n) - (a.base + HEADER_SIZE) == Used(a.blocks[..n]) + GapsBefore(a, n)
  {
    if n > 0 {
      TilesPrefix(a, n - 1);
      assert a.blocks[..n][..n - 1] == a.blocks[..n - 1];
    }
  }

  /** What the allocator computes as the space before its current position is exactly the
      total of all gaps between blocks, as long as all blocks are counted in full; in any case it
      is 0 when nothing is allocated, and an empty list is never searched. */
  lemma SpaceBeforeCurrentIsAllGaps(a: Arena)
    requires Charged(a)
    ensures a.remaining - TailSpace(a) - ENTRY_SIZE == GapsBefore(a, |a.blocks|) + DWORD_RANGE * Oversized(a.blocks)
    ensures Accounted(a) ==> a.remaining - TailSpace(a) - ENTRY_SIZE == GapsBefore(a, |a.blocks|)
    ensures a.blocks == [] ==> a.remaining - TailSpace(a) - ENTRY_SIZE == 0
  {
    TilesPrefix(a, |a.blocks|);
    assert a.blocks[..|a.blocks|] == a.blocks;
  }

  // ---------------------------------------------------------------- order

  lemma FloorsAscend(a: Arena, i: nat, j: nat)
    requires Ordered(a) && i <= j <= |a.blocks|
    ensures a.base + HEADER_SIZE <= Floor(a, i) <= Floor(a, j) <= a.base + a.max
    ensures i < j ==> Floor(a, i) <= a.blocks[i].entry < Floor(a, j)
  {
    if 0 < i < j {
      assert a.blocks[i - 1].End() <= a.blocks[j - 1].entry;
      assert a.blocks[i - 1].End() <= a.blocks[i].entry;
      assert i < j - 1 ==> a.blocks[i].End() <= a.blocks[j - 1].entry;
    } else if i < j {
      assert i < j - 1 ==> a.blocks[i].End() <= a.blocks[j - 1].entry;
    }
  }

  lemma InsertedInOrder(bs: seq<Block>, i: nat, b: Block, j: nat, k: nat)
    requires InOrder(bs) && i <= |bs|
    requires forall l :: 0 <= l < i ==> bs[l].End() <= b.entry
    requires forall l :: i <= l < |bs| ==> b.End() <= bs[l].entry
    requires j < k <= |bs|
    ensures var bs' := bs[..i] + [b] + bs[i..]; bs'[j].End() <= bs'[k].entry
  {
    var bs' := bs[..i] + [b] + bs[i..];
    assert bs'[j] == if j < i then bs[j] else if j == i then b else bs[j - 1];
    assert bs'[k] == if k < i then bs[k] else if k == i then b else bs[k - 1];
  }

  lemma NeighboursBound(a: Arena, i: nat, b: Block)
    requires Ordered(a) && i <= |a.blocks|
    requires 0 < b.size < DWORD_RANGE && b.tag != 0
    requires Floor(a, i) <= b.entry && b.End() <= Ceiling(a, i)
    ensures b.Inside(a.base, a.max)
    ensures forall l :: 0 <= l < i ==> a.blocks[l].End() <= b.entry
    ensures forall l :: i <= l < |a.blocks| ==> b.End() <= a.blocks[l].entry
  {
    FloorsAscend(a, 0, i);
    if i < |a.blocks| {
      assert a.blocks[i].Inside(a.base, a.max);
    }
    forall l | 0 <= l < i
      ensures a.blocks[l].End() <= b.entry
    {
      assert l < i - 1 ==> a.blocks[l].End() <= a.blocks[i - 1].entry;
      assert a.blocks[i - 1].Inside(a.base, a.max);
    }
    forall l | i <= l < |a.blocks|
      ensures b.End() <= a.blocks[l].entry
    {
      assert i < l ==> a.blocks[i].End() <= a.blocks[l].entry;
      assert a.blocks[i].Inside(a.base, a.max);
    }
  }

  lemma InsertInOrder(bs: seq<Block>, i: nat, b: Block, base: int, max: int)
    requires i <= |bs| && InOrder(bs) && b.Inside(base, max)
    requires forall l :: 0 <= l < i ==> bs[l].End() <= b.entry
    requires forall l :: i <= l < |bs| ==> b.End() <= bs[l].entry
    requires forall l :: 0 <= l < |bs| ==> bs[l].Inside(base, max)
    ensures InOrder(bs[..i] + [b] + bs[i..])
    ensures forall l :: 0 <= l <= |bs| ==> (bs[..i] + [b] + bs[i..])[l].Inside(base, max)
  {
    var bs' := bs[..i] + [b] + bs[i..];
    forall j, k | 0 <= j < k < |bs'|
      ensures bs'[j].End() <= bs'[k].entry
    {
      InsertedInOrder(bs, i, b, j, k);
    }
  }

  /** A block that lies between its two neighbours keeps the arena ordered. */
  lemma PutKeepsOrder(a: Arena, i: nat, b: Block)
    requires Ordered(a) && i <= |a.blocks|
    requires 0 < b.size < DWORD_RANGE && b.tag != 0
    requires Floor(a, i) <= b.entry && b.End() <= Ceiling(a, i)
    ensures Ordered(Put(a, i, b))
  {
    NeighboursBound(a, i, b);
    InsertInOrder(a.blocks, i, b, a.base, a.max);
  }

  lemma TakeKeepsOrder(a: Arena, i: nat)
    requires Ordered(a) && i < |a.blocks|
    ensures Ordered(Take(a, i))
  {
    var a' := Take(a, i);
    assert forall j :: 0 <= j < |a'.blocks| ==> a'.blocks[j] == a.blocks[if j < i then j else j + 1];
  }

  /** The block chosen for a fitting place lies between the floor and the ceiling of that place. */
  lemma FittingBlockFits(floor: int, available: int, size: nat, tag: int, alignment: int)
    requires PowerOfTwo(alignment) && Fits(floor, available, size, alignment)
    requires 0 < size <= LARGEST_COUNTED_SIZE
    ensures floor <= Placed(floor, size, tag, alignment).entry
    ensures Placed(floor, size, tag, alignment).End() <= floor + available
  {
    hide PowerOfTwo, AlignUpper, AlignLower;
  }

  lemma FittingHasRoom(a: Arena, i: nat, size: nat, alignment: int)
    requires i <= |a.blocks| && PowerOfTwo(alignment) && 0 < size <= LARGEST_COUNTED_SIZE
    requires Fits(Floor(a, i), Room(a, i), size, alignment)
    ensures HasRoom(a, i, size, alignment)
  {
    hide PowerOfTwo, AlignUpper, AlignLower;
  }

  /** The list position at which a successful allocation put its block. */
  lemma PlaceOf(s: State, size: nat, tag: int, alignment: int) returns (i: nat)
    requires PowerOfTwo(alignment) && (s.restart.At? ==> s.restart.position <= |s.arena.blocks|)
    requires Allocate(s, size, tag, alignment).Running?
    requires Allocate(s, size, tag, alignment).state != s
    ensures size != 0 && tag != 0
    ensures i <= |s.arena.blocks| && i == Position(s, size, alignment)
    ensures Fits(Floor(s.arena, i), Room(s.arena, i), size, alignment)
    ensures var b := Placed(Floor(s.arena, i), size, tag, alignment);
      && Allocate(s, size, tag, alignment).address == b.Data()
      && Allocate(s, size, tag, alignment).state.arena == Put(s.arena, i, b)
      && Allocate(s, size, tag, alignment).state.restart == RestartWith(s, i, b)
  {
    var a := s.arena;
    if Fits(FreeAddress(a), TailSpace(a), size, alignment) {
      i := |a.blocks|;
    } else {
      i := FirstFit(a, Probes(|a.blocks|, s.restart.position), size, alignment).value;
    }
  }

  lemma PlacedKeepsArena(a: Arena, i: nat, size: nat, tag: int, alignment: int)
    requires Ordered(a) && Charged(a) && i <= |a.blocks| && PowerOfTwo(alignment)
    requires 0 < size < DWORD_RANGE && tag != 0 && HasRoom(a, i, size, alignment)
    ensures var b := Placed(Floor(a, i), size, tag, alignment);
      && Ordered(Put(a, i, b)) && Charged(Put(a, i, b)) && b.Inside(a.base, a.max)
      && forall l :: 0 <= l < |a.blocks| ==>
           a.blocks[l].End() <= b.entry || b.End() <= a.blocks[l].entry
  {
    var b := Placed(Floor(a, i), size, tag, alignment);
    NeighboursBound(a, i, b);
    PutKeepsOrder(a, i, b);
    PutKeepsCharged(a, i, b);
  }

  lemma PutKeepsCharged(a: Arena, i: nat, b: Block)
    requires Charged(a) && i <= |a.blocks| && 0 < b.size < DWORD_RANGE
    ensures Charged(Put(a, i, b))
  {
    TotalPut(a.blocks, i, b, FootprintOf);
    TotalPut(a.blocks, i, b, ExcessOf);
    hide Total;
    assert b.Footprint() % DWORD_RANGE == b.Footprint() - DWORD_RANGE * ExcessOf(b);
  }

  /** A block that does not stay within its place runs into its neighbour, or out of the arena. */
  lemma NoRoomLosesOrder(a: Arena, i: nat, size: nat, tag: int, alignment: int)
    requires i <= |a.blocks| && PowerOfTwo(alignment) && !HasRoom(a, i, size, alignment)
    ensures !Ordered(Put(a, i, Placed(Floor(a, i), size, tag, alignment)))
  {
    var b := Placed(Floor(a, i), size, tag, alignment);
    var bs := Put(a, i, b).blocks;
    assert bs[i] == b && b.End() > Ceiling(a, i);
    if i < |a.blocks| {
      assert bs[i + 1] == a.blocks[i];
      assert bs[i].End() > bs[i + 1].entry;
    } else {
      assert !bs[i].Inside(a.base, a.max);
    }
  }

  /** Two multiples less than the modulus apart are the same. */
  lemma NearMultiples(x: int, y: int, d: int)
    requires d > 0 && x % d == 0 && y % d == 0 && -d < x - y < d
    ensures x == y
  {
    DivUnique(x, d, x / d, 0);
    DivUnique(y, d, y / d, 0);
    assert x - y == d * (x / d - y / d);
    Scale(d, x / d - y / d);
  }

  /** The fit test and the block it admits, where `data` is the first aligned address that leaves room
      for a header. */
  lemma FitsIs(floor: int, available: int, size: nat, tag: int, alignment: int, data: int)
    requires PowerOfTwo(alignment) && data % alignment == 0 && floor + 0x20 <= data < floor + 0x20 + alignment
    ensures Fits(floor, available, size, alignment) <==>
      size + 0x24 <= available && data - floor - 0x20 + (size + 0x24) % 0x1_0000_0000 <= available
    ensures Placed(floor, size, tag, alignment) == Block(data - 0x20, size, tag)
  {
    NearMultiples(AlignUpper(floor + ENTRY_SIZE, alignment), data, alignment);
  }

  lemma {:induction false} RoomIsWithinGaps(a: Arena, i: nat, n: nat)
    requires Ordered(a) && 1 <= i < n <= |a.blocks|
    ensures Room(a, i) <= GapsBefore(a, n) && 0 <= GapsBefore(a, 1) <= GapsBefore(a, n)
  {
    FloorsAscend(a, n - 1, n);
    FloorsAscend(a, 0, 1);
    FloorsAscend(a, i, i + 1);
    if n == 2 {
      assert i == 1 && GapsBefore(a, 2) == GapsBefore(a, 1) + a.blocks[1].entry - Floor(a, 1);
    } else if i == n - 1 {
      RoomIsWithinGaps(a, i - 1, n - 1);
    } else {
      RoomIsWithinGaps(a, i, n - 1);
    }
  }

  /** When nothing is allocated: the request is empty, untagged or larger than what remains, or it
      fits neither the tail nor any gap that the search looks at. */
  lemma FailsIff(s: State, size: nat, tag: int, alignment: int)
    requires Wf(s) && PowerOfTwo(alignment) && s.restart.At? && !SearchPanics(|s.arena.blocks|, s.restart.position)
    ensures Allocate(s, size, tag, alignment).Running?
    ensures Allocate(s, size, tag, alignment).state == s <==>
      || size == 0 || tag == 0 || size + 0x24 > s.arena.remaining
      || (!Fits(FreeAddress(s.arena), TailSpace(s.arena), size, alignment)
          && forall i: nat :: i in Probes(|s.arena.blocks|, s.restart.position) ==> !GapFits(s.arena, i, size, alignment))
  {
    var a, n, k := s.arena, |s.arena.blocks|, s.restart.position;
    assert forall i: nat, b: Block | i <= n :: |Put(a, i, b).blocks| == n + 1;
    if size + ENTRY_SIZE + TAIL_SIZE > a.remaining - TailSpace(a) - ENTRY_SIZE {
      SpaceBeforeCurrentIsAllGaps(a);
      forall i: nat | i in Probes(n, k)
        ensures !GapFits(a, i, size, alignment)
      {
        ProbesCover(n, k, i);
        RoomIsWithinGaps(a, i, n);
      }
    }
  }

  /** After a request of any size that the code admits, the arena is ordered exactly when the block
      stays within its place, and then everything is as before. */
  lemma AllocateKeepsWf(s: State, size: nat, tag: int, alignment: int)
    requires Wf(s) && PowerOfTwo(alignment) && size < DWORD_RANGE
    requires Allocate(s, size, tag, alignment).Running?
    ensures Ordered(Allocate(s, size, tag, alignment).state.arena) <==> StaysInPlace(s, size, tag, alignment)
    ensures Wf(Allocate(s, size, tag, alignment).state) <==> StaysInPlace(s, size, tag, alignment)
  {
    hide Allocate, Fits, FirstFit, Probes, Position, PowerOfTwo, HasRoom, Placed, Put;
    if Allocate(s, size, tag, alignment).state != s {
      RestartInRange(s);
      var i := PlaceOf(s, size, tag, alignment);
      if HasRoom(s.arena, i, size, alignment) {
        PlacedKeepsArena(s.arena, i, size, tag, alignment);
        RestartIsKnown(s, i, Placed(Floor(s.arena, i), size, tag, alignment));
      } else {
        NoRoomLosesOrder(s.arena, i, size, tag, alignment);
      }
    }
  }

  lemma RestartIsKnown(s: State, i: nat, b: Block)
    requires Wf(s) && i <= |s.arena.blocks|
    ensures var restart, blocks := RestartWith(s, i, b), Put(s.arena, i, b).blocks;
      && (restart.At? ==> restart.position <= |blocks|)
      && (restart.Freed? ==> forall c :: c in blocks ==> c.entry != restart.entry)
  {
  }

  lemma PutLength(a: Arena, i: nat, b: Block)
    requires i <= |a.blocks|
    ensures |Put(a, i, b).blocks| == |a.blocks| + 1
  {
  }

  /** Every request whose total fits a DWORD stays within its place. */
  lemma CountedStaysInPlace(s: State, size: nat, tag: int, alignment: int)
    requires s.restart.At? ==> s.restart.position <= |s.arena.blocks|
    requires PowerOfTwo(alignment) && size <= LARGEST_COUNTED_SIZE
    requires Allocate(s, size, tag, alignment).Running?
    ensures StaysInPlace(s, size, tag, alignment)
  {
    if Allocate(s, size, tag, alignment).state != s {
      var i := PlaceOf(s, size, tag, alignment);
      FittingHasRoom(s.arena, i, size, alignment);
    }
  }

  lemma AddressMeansChange(s: State, size: nat, tag: int, alignment: int)
    requires Wf(s) && PowerOfTwo(alignment)
    requires Allocate(s, size, tag, alignment).Running?
    ensures Allocate(s, size, tag, alignment).state != s <==> Allocate(s, size, tag, alignment).address != 0
  {
    var a, n, r := s.arena, |s.arena.blocks|, Allocate(s, size, tag, alignment);
    FloorsAscend(a, 0, n);
    if r.state.arena == a {
    } else if Fits(FreeAddress(a), TailSpace(a), size, alignment) {
    } else {
      var i := FirstFit(a, Probes(n, s.restart.position), size, alignment).value;
      FloorsAscend(a, 0, i);
    }
    assert forall i: nat, b: Block | i <= n :: |Put(a, i, b).blocks| == n + 1;
  }

  /** A returned address is aligned as asked for and lies one header past a new listed block of the
      requested size and tag. If that block stays within its place it lies inside the arena and
      overlaps no block that was there before. */
  lemma AllocatedBlockIsNew(s: State, size: nat, tag: int, alignment: int) returns (i: nat)
    requires Wf(s) && PowerOfTwo(alignment) && size < DWORD_RANGE
    requires Allocate(s, size, tag, alignment).Running? && Allocate(s, size, tag, alignment).address != 0
    ensures i == Position(s, size, alignment)
    ensures var blocks := Allocate(s, size, tag, alignment).state.arena.blocks;
            var address := Allocate(s, size, tag, alignment).address;
      && i < |blocks| && blocks[i] == Block(address - ENTRY_SIZE, size, tag)
      && address % alignment == 0
      && blocks[..i] + blocks[i + 1..] == s.arena.blocks
      && (HasRoom(s.arena, i, size, alignment) ==>
            && blocks[i].Inside(s.arena.base, s.arena.max)
            && forall l :: 0 <= l < |s.arena.blocks| ==>
                 s.arena.blocks[l].End() <= blocks[i].entry || blocks[i].End() <= s.arena.blocks[l].entry)
      && (!HasRoom(s.arena, i, size, alignment) ==>
            blocks[i].End() > if i < |s.arena.blocks| then blocks[i + 1].entry else s.arena.base + s.arena.max)
  {
    AddressMeansChange(s, size, tag, alignment);
    i := PlaceOf(s, size, tag, alignment);
    hide Allocate, Fits, FirstFit, Probes, Position, PowerOfTwo;
    if HasRoom(s.arena, i, size, alignment) {
      PlacedKeepsArena(s.arena, i, size, tag, alignment);
    }
    PutThenSkip(s.arena, i, Placed(Floor(s.arena, i), size, tag, alignment));
  }

  lemma PutThenSkip(a: Arena, i: nat, b: Block)
    requires i <= |a.blocks|
    ensures var blocks := Put(a, i, b).blocks;
      i < |blocks| && blocks[i] == b && blocks[..i] + blocks[i + 1..] == a.blocks
  {
    var blocks := Put(a, i, b).blocks;
    assert blocks[..i] == a.blocks[..i] && blocks[i + 1..] == a.blocks[i..];
    assert a.blocks[..i] + a.blocks[i..] == a.blocks;
  }

  /** The DWORD in which header, data and tail are added up is exact up to
      LARGEST_COUNTED_SIZE only: beyond it a successful allocation ruins the accounting, whether
      or not the block stays within its place. */
  lemma AccountingExactUnlessTruncated(s: State, size: nat, tag: int, alignment: int)
    requires Wf(s) && Accounted(s.arena) && PowerOfTwo(alignment) && size < DWORD_RANGE
    requires Allocate(s, size, tag, alignment).Running? && Allocate(s, size, tag, alignment).state != s
    ensures Accounted(Allocate(s, size, tag, alignment).state.arena) <==> size <= LARGEST_COUNTED_SIZE
  {
    hide Allocate, Fits, PowerOfTwo, Floor, Used, Placed, Wf, Accounted;
    RestartInRange(s);
    var i := PlaceOf(s, size, tag, alignment);
    PutAccounted(s.arena, i, Placed(Floor(s.arena, i), size, tag, alignment));
  }

  lemma PutAccounted(a: Arena, i: nat, b: Block)
    requires Accounted(a) && i <= |a.blocks| && b.size < DWORD_RANGE
    ensures Accounted(Put(a, i, b)) <==> b.size <= LARGEST_COUNTED_SIZE
  {
    TotalPut(a.blocks, i, b, FootprintOf);
    hide Total;
  }

  /** Freeing a block that is counted in full keeps everything; an oversized one fails the ASSERT
      on its size. */
  lemma FreeKeepsWf(s: State, i: nat)
    requires Wf(s) && i < |s.arena.blocks| && s.arena.blocks[i].Counted()
    ensures Wf(FreeAt(s, i))
  {
    TakeKeepsOrder(s.arena, i);
    TotalTake(s.arena.blocks, i, FootprintOf);
    TotalTake(s.arena.blocks, i, ExcessOf);
  }

  /** Freeing the block just allocated finds that block; and if it can be freed at all, which is when
      it is counted in full, that restores the arena, its free size and its free address. */
  lemma FreeUndoesAllocate(s: State, size: nat, tag: int, alignment: int) returns (i: nat)
    requires Wf(s) && PowerOfTwo(alignment) && size < DWORD_RANGE
    requires Allocate(s, size, tag, alignment).Running? && Allocate(s, size, tag, alignment).address != 0
    ensures var s' := Allocate(s, size, tag, alignment).state;
      && Owns(s'.arena, Allocate(s, size, tag, alignment).address, tag, i)
      && (s'.arena.blocks[i].Counted() <==> size <= LARGEST_COUNTED_SIZE)
      && (s'.arena.blocks[i].Counted() ==>
            && FreeAt(s', i).arena == s.arena
            && FreeAddress(FreeAt(s', i).arena) == FreeAddress(s.arena)
            && (i == |s.arena.blocks| ==> FreeAt(s', i) == s))
  {
    hide Allocate, PowerOfTwo, Placed, Fits, Wf, Put, Take;
    RestartInRange(s);
    AddressMeansChange(s, size, tag, alignment);
    i := PlaceOf(s, size, tag, alignment);
    PutThenSkip(s.arena, i, Placed(Floor(s.arena, i), size, tag, alignment));
    if size <= LARGEST_COUNTED_SIZE {
      PutThenTake(s.arena, i, Placed(Floor(s.arena, i), size, tag, alignment));
    }
  }

  lemma RestartInRange(s: State)
    requires Wf(s)
    ensures s.restart.At? ==> s.restart.position <= |s.arena.blocks|
    ensures Ordered(s.arena) && Charged(s.arena)
  {
  }

  lemma PutThenTake(a: Arena, i: nat, b: Block)
    requires i <= |a.blocks| && b.size <= LARGEST_COUNTED_SIZE
    ensures i < |Put(a, i, b).blocks| && Take(Put(a, i, b), i) == a
  {
    PutThenSkip(a, i, b);
    hide PowerOfTwo;
    assert b.Footprint() % DWORD_RANGE == b.Footprint();
    assert Take(Put(a, i, b), i).blocks == a.blocks;
  }

  // ---------------------------------------------------------------- oversized requests

  /** A request that the code admits and that loses the order: on an arena with just enough space
      for it without padding, a 4 GB block aligned to 64 KB runs out of the arena. */
  lemma OrderCanBeLost()
    ensures PowerOfTwo(0x1_0000)
    ensures var s, size := Initial(4096, DWORD_RANGE + 139), DWORD_RANGE - 1;
      && Wf(s) && Accounted(s.arena)
      && Allocate(s, size, 1, 0x1_0000).Running? && Allocate(s, size, 1, 0x1_0000).address == 0x1_0000
      && !Ordered(Allocate(s, size, 1, 0x1_0000).state.arena)
  {
    assert PowerOfTwo(2) && PowerOfTwo(4) && PowerOfTwo(8) && PowerOfTwo(16) && PowerOfTwo(32) && PowerOfTwo(64);
    assert PowerOfTwo(0x80) && PowerOfTwo(0x100) && PowerOfTwo(0x200) && PowerOfTwo(0x400) && PowerOfTwo(0x800);
    assert PowerOfTwo(0x1000) && PowerOfTwo(0x2000) && PowerOfTwo(0x4000) && PowerOfTwo(0x8000);
    var s, size := Initial(4096, DWORD_RANGE + 139), DWORD_RANGE - 1;
    assert Padding(4168, 0x1_0000) == 61336;
    assert FreeAddress(s.arena) == 4168 && TailSpace(s.arena) == size + ENTRY_SIZE + TAIL_SIZE;
    NoRoomLosesOrder(s.arena, 0, size, 1, 0x1_0000);
  }

  /** A request that stays within its place and still ruins the accounting: the count of remaining
      bytes goes down by 35, and a free of the block would fail its ASSERT. */
  lemma AccountingCanBeLost()
    ensures var s := Initial(4096, 2 * DWORD_RANGE);
      && Wf(s) && Accounted(s.arena)
      && Allocate(s, DWORD_RANGE - 1, 1, 1).Running?
      && var s' := Allocate(s, DWORD_RANGE - 1, 1, 1).state;
         Wf(s') && |s'.arena.blocks| == 1 && !s'.arena.blocks[0].Counted()
         && !Accounted(s'.arena) && s'.arena.remaining == s.arena.remaining - 35
  {
    var s := Initial(4096, 2 * DWORD_RANGE);
    var b := Placed(4168, DWORD_RANGE - 1, 1, 1);
    assert Put(s.arena, 0, b).blocks == [b] && [b][..0] == [];
    AllocateKeepsWf(s, DWORD_RANGE - 1, 1, 1);
  }

  // ---------------------------------------------------------------- the search

  /** Which gaps a non-panicking search can use, and in which order: with the head as restart entry all
      internal gaps, but with a block as restart entry neither the gap behind the first block nor the two
      gaps next to the restart block; and never the one between the header and the first block. */
  lemma ProbesCover(n: nat, k: nat, i: nat)
    requires k <= n
    ensures i in Probes(n, k) <==>
            if k == 0 then 1 <= i < n else 2 <= i < n && i != k - 1 && i != k
    ensures forall j :: 0 <= j < |Probes(n, k)| ==>
      Probes(n, k)[j] == if k == 0 then 1 + j
                         else if k + 1 + j < n then k + 1 + j
                         else if k < n then 2 + j - (n - k - 1) else 2 + j
  {
    if k == 0 {
      if 1 <= i < n {
        assert Range(1, n)[i - 1] == i;
      }
    } else {
      if k + 1 <= i < n {
        assert Range(k + 1, n)[i - (k + 1)] == i;
      }
      if 2 <= i < k - 1 {
        assert Range(2, k - 1)[i - 2] == i;
      }
    }
  }

  // ---------------------------------------------------------------- runs

  datatype Op = AllocateOp(size: nat, tag: int, alignment: int) | FreeOp(address: int, tag: int)

  /** One operation that neither panics, nor follows a freed restart entry, nor puts a block that
      does not stay within its place. */
  ghost predicate Step(s: State, op: Op, s': State) {
    match op
    case AllocateOp(size, tag, alignment) =>
      && size < DWORD_RANGE && PowerOfTwo(alignment)
      && (s.restart.At? ==> s.restart.position <= |s.arena.blocks|)
      && Allocate(s, size, tag, alignment).Running? && StaysInPlace(s, size, tag, alignment)
      && s' == Allocate(s, size, tag, alignment).state
    case FreeOp(address, tag) =>
      exists i: nat :: Owns(s.arena, address, tag, i) && s.arena.blocks[i].Counted() && s' == FreeAt(s, i)
  }

  /** `trace` holds the states before each operation and after the last one. */
  ghost predicate IsRun(trace: seq<State>, ops: seq<Op>) {
    && |trace| == |ops| + 1
    && Wf(trace[0])
    && forall j :: 0 <= j < |ops| ==> Step(trace[j], ops[j], trace[j + 1])
  }

  /** Over every such run, with requests of any size, the arena stays ordered, the count of
      remaining bytes is what the listed blocks were charged, and it is exact whenever none of them
      is oversized. */
  lemma {:induction false} RunKeepsWf(trace: seq<State>, ops: seq<Op>, j: nat)
    requires IsRun(trace, ops) && j <= |ops|
    ensures Wf(trace[j])
    ensures Accounted(trace[j].arena) <==> forall b :: b in trace[j].arena.blocks ==> b.Counted()
  {
    if j > 0 {
      RunKeepsWf(trace, ops, j - 1);
      var s := trace[j - 1];
      assert Step(s, ops[j - 1], trace[j - 1 + 1]);
      match ops[j - 1] {
        case AllocateOp(size, tag, alignment) =>
          AllocateKeepsWf(s, size, tag, alignment);
        case FreeOp(address, tag) =>
          var i: nat :| Owns(s.arena, address, tag, i) && s.arena.blocks[i].Counted() && trace[j] == FreeAt(s, i);
          FreeKeepsWf(s, i);
      }
    }
    AccountedIffAllCounted(trace[j].arena);
  }

  /** A freed restart entry can come back: once the entries behind it and itself are freed, the next
      small request puts an entry at its address again, and the search may start from it. */
  lemma RestartComesBack()
    ensures var s := PanicTrace()[|PanicOps()|];
      && s.restart == At(3)
      && FreeAt(FreeAt(s, 3), 2).restart == Freed(s.arena.blocks[2].entry)
      && Allocate(FreeAt(FreeAt(s, 3), 2), 16, 1, 1).Running?
      && Allocate(FreeAt(FreeAt(s, 3), 2), 16, 1, 1).state.restart == At(3)
  {
    var s := PanicTrace()[|PanicOps()|];
    var b := Full().blocks;
    assert s.arena.blocks == [b[0], b[1], Block(4272, 16, 1), b[3]];
    var t := FreeAt(FreeAt(s, 3), 2);
    assert t.arena.blocks == [b[0], b[1]];
    assert Placed(4272, 16, 1, 1) == Block(4272, 16, 1);
  }

  /** The address and tag determine the block, so a free gives back exactly what was allocated. */
  lemma OwnedBlockIsUnique(a: Arena, address: int, tag: int, i: nat, j: nat)
    requires Ordered(a) && Owns(a, address, tag, i) && Owns(a, address, tag, j)
    ensures i == j
  {
    assert forall l, m :: 0 <= l < m < |a.blocks| ==> a.blocks[l].Data() < a.blocks[m].Data() by {
      forall l, m | 0 <= l < m < |a.blocks|
        ensures a.blocks[l].Data() < a.blocks[m].Data()
      {
        assert a.blocks[l].Inside(a.base, a.max);
      }
    }
  }

  function Full(): Arena {
    Arena(4096, MINIMUM_SIZE, 32,
          [Block(4168, 16, 1), Block(4220, 16, 1), Block(4272, 1000, 1), Block(5308, 64256, 1)])
  }

  /** The states of a run that fills the arena with four blocks, frees the third one, and puts
      a smaller one in its place. */
  function PanicTrace(): (trace: seq<State>)
    ensures |trace| == 7
  {
    var b := Full().blocks;
    [Initial(4096, MINIMUM_SIZE),
     State(Full().(remaining := 65412, blocks := b[..1]), At(0)),
     State(Full().(remaining := 65360, blocks := b[..2]), At(0)),
     State(Full().(remaining := 64324, blocks := b[..3]), At(0)),
     State(Full(), At(0)),
     State(Full().(remaining := 1068, blocks := [b[0], b[1], b[3]]), At(0)),
     State(Full().(remaining := 1016, blocks := [b[0], b[1], Block(4272, 16, 1), b[3]]), At(3))]
  }

  function PanicOps(): seq<Op> {
    [AllocateOp(16, 1, 1), AllocateOp(16, 1, 1), AllocateOp(1000, 1, 1), AllocateOp(64256, 1, 1),
     FreeOp(4304, 1), AllocateOp(16, 1, 1)]
  }

  lemma PanicTraceFills(j: nat)
    requires j < 4
    ensures Step(PanicTrace()[j], PanicOps()[j], PanicTrace()[j + 1])
  {
    var s, s' := PanicTrace()[j], PanicTrace()[j + 1];
    var b := Full().blocks;
    assert FreeAddress(s.arena) == b[j].entry;
    assert Placed(FreeAddress(s.arena), b[j].size, 1, 1) == b[j];
    assert s'.arena == Put(s.arena, j, b[j]);
    CountedStaysInPlace(s, b[j].size, 1, 1);
  }

  lemma PanicTraceRefills()
    ensures Step(PanicTrace()[4], PanicOps()[4], PanicTrace()[5])
    ensures Step(PanicTrace()[5], PanicOps()[5], PanicTrace()[6])
  {
    assert Owns(Full(), 4304, 1, 2) && FreeAt(PanicTrace()[4], 2) == PanicTrace()[5];
    var a := PanicTrace()[5].arena;
    assert Probes(3, 0) == [1, 2];
    assert [1, 2][1..] == [2];
    assert !GapFits(a, 1, 16, 1) && GapFits(a, 2, 16, 1);
    assert FirstFit(a, [1, 2], 16, 1) == Some(2);
    assert Put(a, 2, Block(4272, 16, 1)) == PanicTrace()[6].arena;
    CountedStaysInPlace(PanicTrace()[5], 16, 1, 1);
  }

  lemma PanicTraceIsRun()
    ensures IsRun(PanicTrace(), PanicOps())
  {
    assert Wf(PanicTrace()[0]);
    hide Step, Full, Wf;
    forall j | 0 <= j < |PanicOps()|
      ensures Step(PanicTrace()[j], PanicOps()[j], PanicTrace()[j + 1])
    {
      if j < 4 {
        PanicTraceFills(j);
      } else {
        PanicTraceRefills();
      }
    }
  }

  /** The panic is real: that run ends in a state whose next small request panics although a
      gap for it is free. */
  lemma SearchCanPanic()
    ensures IsRun(PanicTrace(), PanicOps())
    ensures var s := PanicTrace()[|PanicOps()|];
      && |s.arena.blocks| == 4 && s.restart == At(3)
      && Allocate(s, 16, 1, 1) == Panicked && GapFits(s.arena, 3, 16, 1)
  {
    hide IsRun;
    PanicTraceIsRun();
  }
}
