/** The byte-packed bitmap: scanning for runs of equal bits, and its use as an allocator of runs.
 */
module Bitmaps {

  const MAX_DWORD := 0xFFFF_FFFF
  const DWORD_RANGE := 0x1_0000_0000
  const ENTRY_BITS := 8

  // ---------------------------------------------------------------- bits of a byte

  function Flag(b: nat): bv8
    requires b < ENTRY_BITS
  {
    1 << b
  }

  predicate FlagOn(x: bv8, b: nat)
    requires b < ENTRY_BITS
  {
    x & Flag(b) == Flag(b)
  }

  function Changed(x: bv8, b: nat, on: bool): bv8
    requires b < ENTRY_BITS
  {
    if on then x | Flag(b) else x & !Flag(b)
  }

  lemma FlagValues(b: nat)
    requires b < ENTRY_BITS
    ensures Flag(b) == if b == 0 then 1 else if b == 1 then 2 else if b == 2 then 4 else if b == 3 then 8
                       else if b == 4 then 0x10 else if b == 5 then 0x20 else if b == 6 then 0x40 else 0x80
  {
    assert 1 as bv8 << 0 == 1 && 1 as bv8 << 1 == 2 && 1 as bv8 << 2 == 4 && 1 as bv8 << 3 == 8;
    assert 1 as bv8 << 4 == 0x10 && 1 as bv8 << 5 == 0x20 && 1 as bv8 << 6 == 0x40 && 1 as bv8 << 7 == 0x80;
  }

  /** One bit is on or off as a whole. */
  lemma FlagIsOneBit(x: bv8, b: nat)
    requires b < ENTRY_BITS
    ensures Flag(b) == 1 << b
    ensures FlagOn(x, b) <==> x & Flag(b) == Flag(b)
    ensures FlagOn(x, b) <==> x & Flag(b) != 0
  {
    FlagValues(b);
    hide Flag;
  }

  lemma FlagsDiffer(b: nat, c: nat)
    requires b < ENTRY_BITS && c < ENTRY_BITS && b != c
    ensures Flag(b) & Flag(c) == 0
  {
    hide Flag;
    FlagValues(b);
    FlagValues(c);
  }

  lemma FlagNotZero(b: nat)
    requires b < ENTRY_BITS
    ensures Flag(b) != 0
  {
    hide Flag;
    FlagValues(b);
  }

  lemma MaskedChange(x: bv8, f: bv8, g: bv8, on: bool)
    ensures var y := if on then x | f else x & !f;
      && (f != 0 ==> (y & f == f) == on)
      && (f & g == 0 ==> (y & g == g) == (x & g == g))
  {
  }

  /** Changing one bit of a byte changes that bit and no other. */
  lemma ChangedBits(x: bv8, b: nat, on: bool, c: nat)
    requires b < ENTRY_BITS && c < ENTRY_BITS
    ensures FlagOn(Changed(x, b, on), c) == if c == b then on else FlagOn(x, c)
  {
    hide Flag;
    FlagNotZero(c);
    if c != b {
      FlagsDiffer(b, c);
    }
    MaskedChange(x, Flag(b), Flag(c), on);
  }

  // ---------------------------------------------------------------- sequences of bits

  /** The number of bytes that BitmapPreinit asks for: enough, and no byte too many. */
  function BufferSize(bitCount: nat): (r: nat)
    ensures ENTRY_BITS * r >= bitCount > ENTRY_BITS * (r - 1) || r == bitCount == 0
  {
    var rounded := bitCount + ENTRY_BITS - 1;
    (rounded - rounded % ENTRY_BITS) / ENTRY_BITS
  }

  predicate BitOf(bytes: seq<bv8>, i: nat)
    requires i < ENTRY_BITS * |bytes|
  {
    FlagOn(bytes[i / ENTRY_BITS], i % ENTRY_BITS)
  }

  function Unpack(bytes: seq<bv8>, n: nat): (r: seq<bool>)
    requires n <= ENTRY_BITS * |bytes|
    ensures |r| == n
    ensures forall i :: 0 <= i < n ==> r[i] == BitOf(bytes, i)
  {
    seq(n, i requires 0 <= i < n => BitOf(bytes, i))
  }

  /** Bit `i` is bit `i` modulo 8 of byte `i` / 8. */
  lemma UnpackedBit(bytes: seq<bv8>, n: nat, i: nat)
    requires i < n <= 8 * |bytes|
    ensures Unpack(bytes, n)[i] <==> (bytes[i / 8] & (1 << (i % 8))) != 0
  {
    FlagIsOneBit(bytes[i / 8], i % 8);
    hide Flag, FlagOn;
  }

  /** A bit changed; one behind the last bit is in the padding of the last byte. */
  function WithBit(bits: seq<bool>, i: nat, on: bool): seq<bool> {
    if i < |bits| then bits[i := on] else bits
  }

  lemma ChangedByte(bytes: seq<bv8>, n: nat, i: nat, on: bool)
    requires n <= ENTRY_BITS * |bytes| && i < ENTRY_BITS * |bytes|
    ensures var k := i / ENTRY_BITS;
      Unpack(bytes[k := Changed(bytes[k], i % ENTRY_BITS, on)], n) == WithBit(Unpack(bytes, n), i, on)
  {
    var k := i / ENTRY_BITS;
    var bytes' := bytes[k := Changed(bytes[k], i % ENTRY_BITS, on)];
    forall j | 0 <= j < n
      ensures BitOf(bytes', j) == WithBit(Unpack(bytes, n), i, on)[j]
    {
      if j / ENTRY_BITS == k {
        ChangedBits(bytes[k], i % ENTRY_BITS, on, j % ENTRY_BITS);
      }
    }
  }

  /** `n` equal bits from `i` on. */
  predicate RunAt(bits: seq<bool>, i: nat, n: nat, v: bool) {
    i + n <= |bits| && forall j :: i <= j < i + n ==> bits[j] == v
  }

  lemma NoRun(bits: seq<bool>, i: nat, v: bool)
    requires i <= |bits|
    ensures RunAt(bits, i, 0, v)
  {
  }

  lemma NextInRun(bits: seq<bool>, i: nat, j: nat, n: nat, v: bool)
    requires j < n && i + n <= |bits| && RunAt(bits, i, j, v)
    ensures if bits[i + j] == v then RunAt(bits, i, j + 1, v) else !RunAt(bits, i, n, v)
  {
  }

  function WithRun(bits: seq<bool>, i: nat, n: nat, v: bool): (r: seq<bool>)
    requires i + n <= |bits|
    ensures |r| == |bits|
    ensures forall j :: 0 <= j < |bits| ==> r[j] == if i <= j < i + n then v else bits[j]
  {
    bits[..i] + seq(n, _ => v) + bits[i + n..]
  }

  /** What the scan looks for: the least start of a run inside the range, if there is one. */
  function FirstRun(bits: seq<bool>, from: nat, limit: nat, n: nat, v: bool): (r: nat)
    requires limit <= |bits| <= MAX_DWORD && n > 0
    ensures r == MAX_DWORD ==> forall i :: from <= i && i + n <= limit ==> !RunAt(bits, i, n, v)
    ensures r != MAX_DWORD ==> from <= r && r + n <= limit && RunAt(bits, r, n, v)
    ensures r != MAX_DWORD ==> forall i :: from <= i < r ==> !RunAt(bits, i, n, v)
    decreases limit - from
  {
    if from + n > limit then MAX_DWORD
    else if RunAt(bits, from, n, v) then from
    else FirstRun(bits, from + 1, limit, n, v)
  }

  predicate ScanArgumentsOk(bits: seq<bool>, from: nat, limit: nat, n: nat) {
    n != 0 && from <= limit <= |bits|
  }

  /** BitmapScanFromToAndFlip on values: the new bits, and the index returned. */
  function ScanAndFlip(bits: seq<bool>, from: nat, limit: nat, n: nat, v: bool): (seq<bool>, nat)
    requires |bits| <= MAX_DWORD
  {
    if !ScanArgumentsOk(bits, from, limit, n) then (bits, MAX_DWORD)
    else
      var r := FirstRun(bits, from, limit, n, v);
      if r == MAX_DWORD then (bits, MAX_DWORD) else (WithRun(bits, r, n, !v), r)
  }

  /** What that comes to: the index is the least start of `n` equal bits between `from` and `limit`, and
      those bits and no others are flipped; there is none, and nothing changes, for 0 bits, for a range
      that ends before it starts or behind the bitmap, or if no such run exists. */
  lemma ScanAndFlipIs(bits: seq<bool>, from: nat, limit: nat, n: nat, v: bool)
    requires |bits| <= MAX_DWORD
    ensures var (bits', r) := ScanAndFlip(bits, from, limit, n, v);
      && |bits'| == |bits|
      && (r == 0xFFFF_FFFF <==>
            n == 0 || from > limit || limit > |bits|
            || forall i: nat :: from <= i && i + n <= limit ==> !RunAt(bits, i, n, v))
      && (r == 0xFFFF_FFFF ==> bits' == bits)
      && (r != 0xFFFF_FFFF ==>
            && from <= r && r + n <= limit && (forall j :: r <= j < r + n ==> bits[j] == v)
            && (forall i: nat :: from <= i < r ==> !RunAt(bits, i, n, v))
            && forall j :: 0 <= j < |bits| ==> bits'[j] == if r <= j < r + n then !v else bits[j])
  {
    var r := ScanAndFlip(bits, from, limit, n, v).1;
    if n != 0 && from <= limit <= |bits| && r != MAX_DWORD {
      assert RunAt(bits, r, n, v);
    }
  }

  /** The check of BitmapSetBitsValue, in 32-bit arithmetic. */
  predicate RangeCheck(bitCount: nat, index: nat, count: nat) {
    index < bitCount && (bitCount - count) % DWORD_RANGE >= index
  }

  /** It accepts every range inside the bitmap, and of those outside exactly the ones whose
      count exceeds the whole bitmap. */
  lemma RangeCheckAccepts(bitCount: nat, index: nat, count: nat)
    requires bitCount <= MAX_DWORD && count <= MAX_DWORD
    ensures RangeCheck(bitCount, index, count) <==> index < bitCount && (index + count <= bitCount || count > bitCount)
  {
    if count > bitCount {
      assert (bitCount - count) % DWORD_RANGE == bitCount - count + DWORD_RANGE;
    }
  }

  /** Bit `j` is one of the `count` bits from `index` on, counted in 32 bits: where the buffer has all
      of 2^32 bits, the count goes on at bit 0. */
  predicate Touched(bitCount: nat, index: nat, count: nat, j: nat) {
    index <= j < index + count || (ENTRY_BITS * BufferSize(bitCount) == DWORD_RANGE && j + DWORD_RANGE < index + count)
  }

  function SetRange(bits: seq<bool>, index: nat, count: nat, v: bool): (r: seq<bool>)
    ensures |r| == |bits|
    ensures forall j :: 0 <= j < |bits| ==> r[j] == if Touched(|bits|, index, count, j) then v else bits[j]
  {
    seq(|bits|, j requires 0 <= j < |bits| => if Touched(|bits|, index, count, j) then v else bits[j])
  }

  /** No bit of the range is outside the buffer. */
  predicate InsideBuffer(bitCount: nat, index: nat, count: nat) {
    index + count <= ENTRY_BITS * BufferSize(bitCount) || ENTRY_BITS * BufferSize(bitCount) == DWORD_RANGE
  }

  lemma NoBits(bits: seq<bool>, index: nat, v: bool)
    requires index < |bits|
    ensures SetRange(bits, index, 0, v) == bits && InsideBuffer(|bits|, index, 0)
  {
  }

  /** The next bit of the range is changed too. */
  lemma OneMoreBit(bits: seq<bool>, index: nat, i: nat, v: bool)
    requires index < |bits| <= MAX_DWORD && i < MAX_DWORD && InsideBuffer(|bits|, index, i)
    requires (index + i) % DWORD_RANGE < ENTRY_BITS * BufferSize(|bits|)
    ensures InsideBuffer(|bits|, index, i + 1)
    ensures SetRange(bits, index, i + 1, v) == WithBit(SetRange(bits, index, i, v), (index + i) % DWORD_RANGE, v)
  {
  }

  /** Or it is the first one outside the buffer, and those before it are all that are changed. */
  lemma NoMoreBits(bits: seq<bool>, index: nat, i: nat, count: nat, v: bool)
    requires index < |bits| <= MAX_DWORD && i < count <= MAX_DWORD && InsideBuffer(|bits|, index, i)
    requires (index + i) % DWORD_RANGE >= ENTRY_BITS * BufferSize(|bits|)
    ensures !InsideBuffer(|bits|, index, count) && SetRange(bits, index, count, v) == SetRange(bits, index, i, v)
  {
  }

  /** Both in the numbers themselves. */
  lemma SetRangeIs(bits: seq<bool>, index: nat, count: nat, v: bool)
    requires |bits| <= 0xFFFF_FFFF
    ensures InsideBuffer(|bits|, index, count) <==> index + count <= (|bits| + 7) / 8 * 8 || |bits| > 0xFFFF_FFF8
    ensures |SetRange(bits, index, count, v)| == |bits|
    ensures forall j :: 0 <= j < |bits| ==>
      SetRange(bits, index, count, v)[j] ==
      if index <= j < index + count || (|bits| > 0xFFFF_FFF8 && j + 0x1_0000_0000 < index + count) then v else bits[j]
  {
  }

  /** The range check lets a write leave the buffer exactly for counts larger than the bitmap that the
      padding of the last byte does not hold; inside the bitmap the range changes and no other bit. */
  lemma RangeCheckMisses(bits: seq<bool>, index: nat, count: nat, v: bool)
    requires |bits| <= MAX_DWORD && count <= MAX_DWORD
    ensures RangeCheck(|bits|, index, count) && !InsideBuffer(|bits|, index, count) <==>
      index < |bits| < count && (|bits| + 7) / 8 * 8 < index + count && |bits| <= 0xFFFF_FFF8
    ensures index + count <= |bits| ==>
      InsideBuffer(|bits|, index, count) && SetRange(bits, index, count, v) == WithRun(bits, index, count, v)
  {
    RangeCheckAccepts(|bits|, index, count);
  }

  // ---------------------------------------------------------------- use as an allocator

  datatype Extent = Extent(start: nat, count: nat) {
    predicate Has(i: int) { start <= i < start + count }
  }

  datatype Request = Acquire(from: nat, limit: nat, count: nat) | Release(extent: Extent)

  /** The bits, and the extents handed out and not yet released. */
  datatype Allocation = Allocation(bits: seq<bool>, held: set<Extent>)

  predicate Covered(held: set<Extent>, i: int) {
    exists e :: e in held && e.Has(i)
  }

  /** Held extents do not overlap, and the set bits are exactly those inside them. */
  ghost predicate Sound(s: Allocation) {
    && 0 < |s.bits| <= MAX_DWORD
    && (forall e :: e in s.held ==> e.count > 0 && e.start + e.count <= |s.bits|)
    && (forall e, f, i :: e in s.held && f in s.held && e.Has(i) && f.Has(i) ==> e == f)
    && (forall i :: 0 <= i < |s.bits| ==> s.bits[i] == Covered(s.held, i))
  }

  predicate Allowed(s: Allocation, request: Request) {
    request.Release? ==> request.extent in s.held
  }

  function Step(s: Allocation, request: Request): Allocation
    requires Sound(s) && Allowed(s, request)
  {
    match request
    case Acquire(from, limit, count) =>
      var (bits, r) := ScanAndFlip(s.bits, from, limit, count, false);
      Allocation(bits, if r == MAX_DWORD then s.held else s.held + {Extent(r, count)})
    case Release(e) =>
      Allocation(WithRun(s.bits, e.start, e.count, false), s.held - {e})
  }

  lemma StepKeepsSound(s: Allocation, request: Request)
    requires Sound(s) && Allowed(s, request)
    ensures Sound(Step(s, request))
  {
    var s' := Step(s, request);
    forall i | 0 <= i < |s'.bits|
      ensures s'.bits[i] == Covered(s'.held, i)
    {
      if e :| e in s.held && e.Has(i) {
        assert e in s'.held || s'.held == s.held - {e};
      }
      if s'.bits[i] && !s.bits[i] {
        var r := ScanAndFlip(s.bits, request.from, request.limit, request.count, false).1;
        assert Extent(r, request.count) in s'.held && Extent(r, request.count).Has(i);
      }
    }
    if request.Acquire? && s'.held != s.held {
      var r := ScanAndFlip(s.bits, request.from, request.limit, request.count, false).1;
      assert RunAt(s.bits, r, request.count, false);
      forall e, i | e in s.held && e.Has(i)
        ensures !Extent(r, request.count).Has(i)
      {
        assert Covered(s.held, i) && s.bits[i];
      }
    }
  }

  ghost predicate AllAllowed(s: Allocation, requests: seq<Request>)
    requires Sound(s)
    decreases |requests|
  {
    requests == [] || (Allowed(s, requests[0]) && (StepKeepsSound(s, requests[0]); AllAllowed(Step(s, requests[0]), requests[1..])))
  }

  ghost function Run(s: Allocation, requests: seq<Request>): Allocation
    requires Sound(s) && AllAllowed(s, requests)
    decreases |requests|
  {
    if requests == [] then s
    else
      StepKeepsSound(s, requests[0]);
      Run(Step(s, requests[0]), requests[1..])
  }

  /** Over any history of requests on a fresh bitmap, the extents held are disjoint and
      together they are the set bits. */
  lemma {:induction false} RunKeepsSound(s: Allocation, requests: seq<Request>)
    requires Sound(s) && AllAllowed(s, requests)
    ensures Sound(Run(s, requests)) && |Run(s, requests).bits| == |s.bits|
    decreases |requests|
  {
    if requests != [] {
      StepKeepsSound(s, requests[0]);
      RunKeepsSound(Step(s, requests[0]), requests[1..]);
    }
  }

  /** What BitmapInit leaves: no bit set, nothing held. */
  function Fresh(n: nat): (s: Allocation)
    requires 0 < n <= MAX_DWORD
    ensures Sound(s)
  {
    Allocation(seq(n, _ => false), {})
  }

  /** So over any history from a new bitmap on: a bit is set iff some extent held contains it, no two
      extents share a bit, and once all is released no bit is set. */
  lemma HistoryOfFresh(n: nat, requests: seq<Request>)
    requires 0 < n <= MAX_DWORD && AllAllowed(Fresh(n), requests)
    ensures var s := Run(Fresh(n), requests);
      && |s.bits| == n
      && (forall i :: 0 <= i < n ==> (s.bits[i] <==> exists e :: e in s.held && e.Has(i)))
      && (forall e, f, i :: e in s.held && f in s.held && e.Has(i) && f.Has(i) ==> e == f)
      && (s.held == {} <==> forall i :: 0 <= i < n ==> !s.bits[i])
  {
    RunKeepsSound(Fresh(n), requests);
    var s := Run(Fresh(n), requests);
    if e :| e in s.held {
      assert e.Has(e.start) && Covered(s.held, e.start);
    }
    forall i | 0 <= i < n
      ensures s.bits[i] <==> exists e :: e in s.held && e.Has(i)
    {
      assert s.bits[i] == Covered(s.held, i);
    }
  }

  predicate Meets(held: set<Extent>, i: nat, count: nat) {
    exists j :: i <= j < i + count && Covered(held, j)
  }

  /** A well-formed request is refused exactly when every place in its range meets a held extent. */
  lemma RefusedOnlyWhenFull(s: Allocation, from: nat, limit: nat, count: nat)
    requires Sound(s) && 0 < count && from <= limit <= |s.bits|
    ensures Step(s, Acquire(from, limit, count)).held == s.held <==>
      forall i :: from <= i && i + count <= limit ==> Meets(s.held, i, count)
  {
    var r := FirstRun(s.bits, from, limit, count, false);
    if r == MAX_DWORD {
      forall i | from <= i && i + count <= limit
        ensures Meets(s.held, i, count)
      {
        assert !RunAt(s.bits, i, count, false);
        var j :| i <= j < i + count && s.bits[j];
        assert Covered(s.held, j);
      }
    } else {
      assert RunAt(s.bits, r, count, false);
      assert !s.bits[r] && !Covered(s.held, r) && Extent(r, count).Has(r);
      assert Extent(r, count) !in s.held;
      assert Extent(r, count) in Step(s, Acquire(from, limit, count)).held;
      assert forall j :: r <= j < r + count ==> !s.bits[j] && !Covered(s.held, j);
      assert !Meets(s.held, r, count);
    }
  }

  /** Releasing what was just acquired restores everything. */
  lemma ReleaseUndoesAcquire(s: Allocation, from: nat, limit: nat, count: nat)
    requires Sound(s)
    ensures var s' := Step(s, Acquire(from, limit, count)); var r := ScanAndFlip(s.bits, from, limit, count, false).1;
      r != MAX_DWORD ==> Extent(r, count) in s'.held && Sound(s') && Step(s', Release(Extent(r, count))) == s
  {
    var s', r := Step(s, Acquire(from, limit, count)), ScanAndFlip(s.bits, from, limit, count, false).1;
    StepKeepsSound(s, Acquire(from, limit, count));
    if r != MAX_DWORD {
      assert RunAt(s.bits, r, count, false);
      assert !s.bits[r] && !Covered(s.held, r) && Extent(r, count).Has(r);
      assert Extent(r, count) !in s.held;
      assert WithRun(s'.bits, r, count, false) == s.bits;
    }
  }

  // ---------------------------------------------------------------- the bitmap

  /** Overrun is a write outside the buffer, Panic a failed ASSERT. */
  datatype SetOutcome = Done | Overrun | Panic

  class Bitmap {
    const bitCount: nat
    const buffer: array<bv8>

    ghost predicate Valid() {
      0 < bitCount <= MAX_DWORD && buffer.Length == BufferSize(bitCount)
    }

    ghost function Bits(): (r: seq<bool>)
      requires Valid()
      reads buffer
    {
      Unpack(buffer[..], bitCount)
    }

    /** BitmapPreinit and BitmapInitEx. */
    constructor (numberOfElements: nat, on: bool)
      requires 0 < numberOfElements <= MAX_DWORD
      ensures Valid() && fresh(buffer) && bitCount == numberOfElements
      ensures Bits() == seq(numberOfElements, _ => on)
    {
      bitCount := numberOfElements;
      var filling: bv8 := if on then 0xFF else 0;
      buffer := new bv8[BufferSize(numberOfElements)](_ => filling);
      new;
      forall i | 0 <= i < bitCount
        ensures BitOf(buffer[..], i) == on
      {
        FlagValues(i % ENTRY_BITS);
      }
    }

    method GetBit(index: nat) returns (bit: bool)
      requires Valid() && index < bitCount
      ensures bit == Bits()[index]
    {
      hide Flag, FlagOn;
      var byteIndex := index / ENTRY_BITS;
      var bitIndex := index % ENTRY_BITS;
      FlagIsOneBit(buffer[byteIndex], bitIndex);
      bit := buffer[byteIndex] & Flag(bitIndex) == Flag(bitIndex);
    }

    method ChangeBit(index: nat, on: bool)
      requires Valid() && index < ENTRY_BITS * buffer.Length
      modifies buffer
      ensures Bits() == WithBit(old(Bits()), index, on)
    {
      var byteIndex := index / ENTRY_BITS;
      var bitIndex := index % ENTRY_BITS;
      hide Flag, FlagOn, BitOf, Changed;
      ChangedByte(buffer[..], bitCount, index, on);
      buffer[byteIndex] := Changed(buffer[byteIndex], bitIndex, on);
      assert buffer[..] == old(buffer[..])[byteIndex := Changed(old(buffer[byteIndex]), bitIndex, on)];
    }

    /** _BitmapChangeBits; the model ends at a bit outside the buffer. */
    method ChangeBits(index: nat, on: bool, count: nat) returns (inside: bool)
      requires Valid() && index < bitCount && count <= MAX_DWORD
      modifies buffer
      ensures inside <==> InsideBuffer(bitCount, index, count)
      ensures Bits() == SetRange(old(Bits()), index, count, on)
    {
      hide SetRange, WithBit, InsideBuffer, BufferSize;
      ghost var bits := Bits();
      NoBits(bits, index, on);
      var i := 0;
      while i < count
        invariant i <= count && InsideBuffer(bitCount, index, i)
        invariant Bits() == SetRange(old(Bits()), index, i, on)
      {
        var at := (index + i) % DWORD_RANGE;
        if at >= ENTRY_BITS * buffer.Length {
          NoMoreBits(bits, index, i, count, on);
          return false;
        }
        OneMoreBit(bits, index, i, on);
        ChangeBit(at, on);
        i := i + 1;
      }
      inside := true;
    }

    method ScanInternal(startIndex: nat, firstInvalidBitIndex: nat, consecutiveBits: nat, on: bool) returns (r: nat)
      requires Valid() && 0 < consecutiveBits && startIndex <= firstInvalidBitIndex <= bitCount
      ensures r == FirstRun(Bits(), startIndex, firstInvalidBitIndex, consecutiveBits, on)
    {
      hide RunAt, Flag, FlagOn, BitOf, BufferSize;
      ghost var bits := Bits();
      if firstInvalidBitIndex - startIndex < consecutiveBits {
        return MAX_DWORD;
      }
      var lastIndex := firstInvalidBitIndex - consecutiveBits;
      var i := startIndex;
      while i <= lastIndex
        invariant startIndex <= i <= lastIndex + 1
        invariant FirstRun(bits, i, firstInvalidBitIndex, consecutiveBits, on)
               == FirstRun(bits, startIndex, firstInvalidBitIndex, consecutiveBits, on)
      {
        var found := true;
        var j := 0;
        NoRun(bits, i, on);
        while j < consecutiveBits
          invariant j <= consecutiveBits && found
          invariant RunAt(bits, i, j, on)
        {
          NextInRun(bits, i, j, consecutiveBits, on);
          var bit := GetBit(i + j);
          if on != bit {
            found := false;
            break;
          }
          j := j + 1;
        }
        if found {
          return i;
        }
        i := i + 1;
      }
      r := MAX_DWORD;
    }

    method ScanFromTo(index: nat, firstInvalidBitIndex: nat, consecutiveBits: nat, on: bool) returns (r: nat)
      requires Valid()
      ensures r == if ScanArgumentsOk(Bits(), index, firstInvalidBitIndex, consecutiveBits)
                   then FirstRun(Bits(), index, firstInvalidBitIndex, consecutiveBits, on) else MAX_DWORD
    {
      if 0 == consecutiveBits {
        return MAX_DWORD;
      }
      if index > firstInvalidBitIndex || firstInvalidBitIndex > bitCount {
        return MAX_DWORD;
      }
      r := ScanInternal(index, firstInvalidBitIndex, consecutiveBits, on);
    }

    method ScanFromToAndFlip(index: nat, firstInvalidBitIndex: nat, consecutiveBits: nat, on: bool) returns (r: nat)
      requires Valid()
      modifies buffer
      ensures (Bits(), r) == ScanAndFlip(old(Bits()), index, firstInvalidBitIndex, consecutiveBits, on)
    {
      if 0 == consecutiveBits {
        return MAX_DWORD;
      }
      if index > firstInvalidBitIndex || firstInvalidBitIndex > bitCount {
        return MAX_DWORD;
      }
      r := ScanInternal(index, firstInvalidBitIndex, consecutiveBits, on);
      if r == MAX_DWORD {
        return;
      }
      RangeCheckMisses(Bits(), r, consecutiveBits, !on);
      var inside := ChangeBits(r, !on, consecutiveBits);
    }

    /** BitmapSetBitsValue; the argument check is the one described at `RangeCheck`. */
    method SetBitsValue(index: nat, count: nat, on: bool) returns (outcome: SetOutcome)
      requires Valid() && count <= MAX_DWORD
      modifies buffer
      ensures outcome == if !RangeCheck(bitCount, index, count) then Panic
                         else if InsideBuffer(bitCount, index, count) then Done else Overrun
      ensures Bits() == if outcome == Panic then old(Bits()) else SetRange(old(Bits()), index, count, on)
      ensures index < bitCount && index + count <= bitCount ==>
        outcome == Done && Bits() == WithRun(old(Bits()), index, count, on)
    {
      RangeCheckMisses(Bits(), index, count, on);
      if index >= bitCount || (bitCount - count) % DWORD_RANGE < index {
        return Panic;
      }
      var inside := ChangeBits(index, on, count);
      outcome := if inside then Done else Overrun;
    }

    /** One request of a user of the bitmap as an allocator. */
    method Perform(request: Request, ghost s: Allocation) returns (r: nat, ghost s': Allocation)
      requires Valid() && Sound(s) && s.bits == Bits() && Allowed(s, request)
      modifies buffer
      ensures s' == Step(s, request) && Sound(s') && s'.bits == Bits()
      ensures r == if request.Acquire? then ScanAndFlip(s.bits, request.from, request.limit, request.count, false).1 else MAX_DWORD
    {
      r := MAX_DWORD;
      match request {
        case Acquire(from, limit, count) =>
          r := ScanFromToAndFlip(from, limit, count, false);
        case Release(e) =>
          var outcome := SetBitsValue(e.start, e.count, false);
      }
      s' := Step(s, request);
      StepKeepsSound(s, request);
    }
  }
}
