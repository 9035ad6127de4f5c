/** Long file names: how the driver puts a name together from long directory entries, and how
    the FAT32 specification ("FAT Long Directory Entries") splits a name into them.
 */
module FatLongNames {

  const CHARS_PER_ENTRY := 13          // LONG_NAME_TOTAL_CHARS
  const MAX_CHARS := 255               // LONG_NAME_MAX_CHARS
  const DWORD_RANGE := 0x1_0000_0000
  const ORD_END := 0x40                // LONG_NAME_ORD_END_MASK

  type Byte = x: int | 0 <= x < 0x100
  type WideChar = x: int | 0 <= x < 0x1_0000

  /** Overrun is the write of the terminating NUL outside the buffer, Panic a failed ASSERT; the
      model ends at both. */
  datatype Status = Success | BufferTooSmall | Overrun | Panic

  /** LDIR_Ord and the three name arrays of a LONG_DIR_ENTRY, as bytes. */
  datatype LongEntry = LongEntry(ord: Byte, names: seq<seq<Byte>>)

  predicate Shaped(e: LongEntry) {
    |e.names| == 3 && |e.names[0]| == 10 && |e.names[1]| == 12 && |e.names[2]| == 4
  }

  /** The number of the entry, from 1, without the mark on the last one. */
  function Ordinal(e: LongEntry): int {
    if e.ord / ORD_END % 2 == 1 then e.ord - ORD_END else e.ord
  }

  predicate IsLast(e: LongEntry) {
    e.ord / ORD_END % 2 == 1
  }

  /** Where in the name the entry's characters go, in 32-bit arithmetic. */
  function Place(e: LongEntry): nat {
    CHARS_PER_ENTRY * ((Ordinal(e) - 1) % DWORD_RANGE) % DWORD_RANGE
  }

  /** Which name array character `m` of an entry is in, and where that array starts. */
  function ArrayOf(m: nat): nat { if m < 5 then 0 else if m < 11 then 1 else 2 }

  function ArrayStart(j: nat): nat { if j == 0 then 0 else if j == 1 then 5 else if j == 2 then 11 else 13 }

  /** The low byte of character `m` of the entry. */
  function CharAt(e: LongEntry, m: nat): Byte
    requires Shaped(e) && m < CHARS_PER_ENTRY
  {
    e.names[ArrayOf(m)][2 * (m - ArrayStart(ArrayOf(m)))]
  }

  /** How many characters there are before the first NUL, counted from character `m`. */
  function TextLength(e: LongEntry, m: nat): (n: nat)
    requires Shaped(e) && m <= CHARS_PER_ENTRY
    ensures m <= n <= CHARS_PER_ENTRY
    ensures forall l :: m <= l < n ==> CharAt(e, l) != 0
    ensures n < CHARS_PER_ENTRY ==> CharAt(e, n) == 0
    decreases CHARS_PER_ENTRY - m
  {
    if m == CHARS_PER_ENTRY || CharAt(e, m) == 0 then m else TextLength(e, m + 1)
  }

  lemma TextLengthStep(e: LongEntry, m: nat, j: nat, i: nat)
    requires Shaped(e) && j < 3 && i < |e.names[j]| && i % 2 == 0 && m == ArrayStart(j) + i / 2
    ensures m < CHARS_PER_ENTRY && CharAt(e, m) == e.names[j][i]
    ensures TextLength(e, m) == if CharAt(e, m) == 0 then m else TextLength(e, m + 1)
  {
  }

  lemma TextLengthEnd(e: LongEntry)
    requires Shaped(e)
    ensures TextLength(e, CHARS_PER_ENTRY) == CHARS_PER_ENTRY
  {
  }

  /** A last entry without text: nothing checks its place before the NUL is written there. */
  predicate Overruns(e: LongEntry, size: nat)
    requires Shaped(e)
  {
    IsLast(e) && TextLength(e, 0) == 0 && Place(e) >= size
  }

  lemma PlaceIs(e: LongEntry)
    ensures IsLast(e) ==> 0x40 <= e.ord && Place(e) == if e.ord == 0x40 then 0xFFFF_FFF3 else 13 * (e.ord - 0x41)
    ensures !IsLast(e) ==> Place(e) == if e.ord == 0 then 0xFFFF_FFF3 else 13 * (e.ord - 1)
  {
    assert Ordinal(e) == 0 ==> Place(e) == DWORD_RANGE - CHARS_PER_ENTRY;
    assert Ordinal(e) > 0 ==> Place(e) == CHARS_PER_ENTRY * (Ordinal(e) - 1);
  }

  /** By the bytes of the entry: the mark is 0x40, the number is what remains, and number 0 has its place
      13 before 2^32. In the buffers that the driver uses, those are the last entries without text whose
      number is not one that a name can have. */
  lemma OverrunsIff(e: LongEntry, size: nat)
    requires Shaped(e)
    ensures Overruns(e, size) <==>
      && e.ord / 0x40 % 2 == 1 && e.names[0][0] == 0
      && size <= if e.ord == 0x40 then 0xFFFF_FFF3 else 13 * (e.ord - 0x41)
    ensures Overruns(e, 256) <==> e.ord / 0x40 % 2 == 1 && e.names[0][0] == 0 && !(0x41 <= e.ord <= 0x54)
  {
    PlaceIs(e);
    hide Place, Ordinal;
  }

  /** One such entry: the NUL goes to place 806 of 256. */
  lemma EmptyLastEntryOverruns()
    ensures var e := LongEntry(0x7F, [seq(10, _ => 0), seq(12, _ => 0), seq(4, _ => 0)]);
      Shaped(e) && Place(e) == 806 && Overruns(e, 256)
  {
    var e := LongEntry(0x7F, [seq(10, _ => 0), seq(12, _ => 0), seq(4, _ => 0)]);
    assert CharAt(e, 0) == 0;
    OverrunsIff(e, 256);
  }

  /** WritePartialLongFatNameToName: the characters of one entry go to their place in the
      buffer; the last entry also ends the name. A character that would leave no room for the
      end is not written. */
  method WritePartialLongName(e: LongEntry, buffer: array<Byte>) returns (status: Status)
    requires Shaped(e) && buffer.Length < DWORD_RANGE
    modifies buffer
    ensures var at, n := Place(e), TextLength(e, 0);
      && status == (if buffer.Length == 0 then Panic
                    else if Overruns(e, buffer.Length) then Overrun
                    else if n > 0 && at + n >= buffer.Length then BufferTooSmall
                    else Success)
      && (forall x :: 0 <= x < buffer.Length ==>
            buffer[x] == if at <= x < at + n && (status == Success || x < buffer.Length - 1) then CharAt(e, x - at)
                         else if x == at + n && IsLast(e) && status == Success then 0 else old(buffer[x]))
  {
    hide TextLength, CharAt, Ordinal, IsLast, Place;
    if buffer.Length == 0 {
      return Panic;
    }
    var at := Place(e);
    var bufferWriteIndex := at;
    var j := 0;
    ghost var m: nat := 0;
    while j < 3
      invariant 0 <= j <= 3 && m <= CHARS_PER_ENTRY && bufferWriteIndex == at + m
          && (m == 0 || at + m < buffer.Length)
      invariant TextLength(e, m) == TextLength(e, 0)
      invariant j < 3 ==> m == ArrayStart(j)
      invariant j == 3 ==> m == TextLength(e, 0)
      invariant forall x :: 0 <= x < buffer.Length ==>
        buffer[x] == if at <= x < at + m then CharAt(e, x - at) else old(buffer[x])
    {
      var i := 0;
      var ended := false;
      while i < |e.names[j]|
        invariant 0 <= i <= |e.names[j]| && i % 2 == 0 && !ended
        invariant m == ArrayStart(j) + i / 2 && bufferWriteIndex == at + m
          && (m == 0 || at + m < buffer.Length)
        invariant TextLength(e, m) == TextLength(e, 0)
        invariant forall x :: 0 <= x < buffer.Length ==>
          buffer[x] == if at <= x < at + m then CharAt(e, x - at) else old(buffer[x])
      {
        TextLengthStep(e, m, j, i);
        if e.names[j][i] == 0 {
          ended := true;
          break;
        }
        if bufferWriteIndex >= buffer.Length - 1 {
          return BufferTooSmall;
        }
        buffer[bufferWriteIndex] := e.names[j][i];
        bufferWriteIndex := bufferWriteIndex + 1;
        i := i + 2;
        m := m + 1;
      }
      TextLengthEnd(e);
      j := if ended then 3 else j + 1;
    }
    if IsLast(e) {
      if bufferWriteIndex >= buffer.Length {
        return Overrun;
      }
      buffer[bufferWriteIndex] := 0;
    }
    status := Success;
  }

  // ---------------------------------------------------------------- splitting a name

  /** A name whose characters can all be told from the NUL by their low byte; ASCII names can. */
  predicate Representable(name: seq<WideChar>) {
    1 <= |name| <= MAX_CHARS && forall i :: 0 <= i < |name| ==> name[i] % 0x100 != 0
  }

  function EntryCount(name: seq<WideChar>): nat {
    (|name| + CHARS_PER_ENTRY - 1) / CHARS_PER_ENTRY
  }

  /** Character `p` as stored: behind the name come one NUL and then padding. */
  function Padded(name: seq<WideChar>, p: nat): WideChar {
    if p < |name| then name[p] else if p == |name| then 0 else 0xFFFF
  }

  function NameArray(name: seq<WideChar>, first: nat, chars: nat): (r: seq<Byte>)
    ensures |r| == 2 * chars
    ensures forall b :: 0 <= b < 2 * chars ==>
      r[b] == if b % 2 == 0 then Padded(name, first + b / 2) % 0x100 else Padded(name, first + b / 2) / 0x100
    decreases chars
  {
    if chars == 0 then []
    else
      var c := Padded(name, first + chars - 1);
      NameArray(name, first, chars - 1) + [c % 0x100, c / 0x100]
  }

  function OrdinalByte(k: nat, last: bool): (r: nat)
    requires k < ORD_END
    ensures r / ORD_END % 2 == 1 <==> last
    ensures (if last then r - ORD_END else r) == k
  {
    if last then k + ORD_END else k
  }

  /** Long entry number `k`, from 1. */
  function EntryOf(name: seq<WideChar>, k: nat): (e: LongEntry)
    requires Representable(name) && 1 <= k <= EntryCount(name)
    ensures Shaped(e) && Ordinal(e) == k && (IsLast(e) <==> k == EntryCount(name))
  {
    var first := CHARS_PER_ENTRY * (k - 1);
    LongEntry(OrdinalByte(k, k == EntryCount(name)),
              [NameArray(name, first, 5), NameArray(name, first + 5, 6), NameArray(name, first + 11, 2)])
  }

  lemma StoredCharacter(name: seq<WideChar>, first: nat, chars: nat, i: nat)
    requires i < chars
    ensures var bytes := NameArray(name, first, chars);
            var low: int, high: int := bytes[2 * i], bytes[2 * i + 1];
      low + 0x100 * high == if first + i < |name| then name[first + i] else if first + i == |name| then 0 else 0xFFFF
  {
    var bytes := NameArray(name, first, chars);
    assert bytes[2 * i] == Padded(name, first + i) % 0x100;
    assert (2 * i + 1) / 2 == i && (2 * i + 1) % 2 == 1;
    assert bytes[2 * i + 1] == Padded(name, first + i) / 0x100;
    hide NameArray;
  }

  /** An entry byte by byte: its number, with the mark on the last one; and 13 little-endian characters of
      the name, or one 0 and then 0xFFFF behind its end, in arrays of 5, 6 and 2. */
  lemma EntryOfIs(name: seq<WideChar>, k: nat, m: nat)
    requires Representable(name) && 1 <= k <= EntryCount(name) && m < 13
    ensures 13 * EntryCount(name) - 13 < |name| <= 13 * EntryCount(name)
    ensures EntryOf(name, k).ord == if k == EntryCount(name) then k + 0x40 else k
    ensures var names, p := EntryOf(name, k).names, 13 * (k - 1) + m;
            var bytes := if m < 5 then names[0][2 * m..]
                         else if m < 11 then names[1][2 * (m - 5)..] else names[2][2 * (m - 11)..];
            var low: int, high: int := bytes[0], bytes[1];
      low + 0x100 * high == if p < |name| then name[p] else if p == |name| then 0 else 0xFFFF
  {
    hide NameArray;
    var first := 13 * (k - 1);
    if m < 5 {
      StoredCharacter(name, first, 5, m);
    } else if m < 11 {
      StoredCharacter(name, first + 5, 6, m - 5);
    } else {
      StoredCharacter(name, first + 11, 2, m - 11);
    }
  }

  /** The entries of a name as they are met on disk: last one first. */
  ghost predicate InDiskOrder(entries: seq<LongEntry>, name: seq<WideChar>) {
    && Representable(name) && |entries| == EntryCount(name)
    && forall x :: 0 <= x < |entries| ==> entries[x] == EntryOf(name, |entries| - x)
  }

  lemma EntryCharacters(name: seq<WideChar>, k: nat, m: nat)
    requires Representable(name) && 1 <= k <= EntryCount(name) && m < CHARS_PER_ENTRY
    ensures CharAt(EntryOf(name, k), m) == Padded(name, CHARS_PER_ENTRY * (k - 1) + m) % 0x100
  {
    var first := CHARS_PER_ENTRY * (k - 1);
    var b := 2 * (m - ArrayStart(ArrayOf(m)));
    assert b % 2 == 0;
    assert first + ArrayStart(ArrayOf(m)) + b / 2 == first + m;
  }

  lemma {:induction false} TextEndsAt(e: LongEntry, m: nat, n: nat)
    requires Shaped(e) && m <= n <= CHARS_PER_ENTRY
    requires forall l :: m <= l < n ==> CharAt(e, l) != 0
    requires n < CHARS_PER_ENTRY ==> CharAt(e, n) == 0
    ensures TextLength(e, m) == n
    decreases n - m
  {
    if m < n {
      TextEndsAt(e, m + 1, n);
    }
  }

  /** How many characters of the name entry `k` holds: 13, or what is left. */
  function CharsIn(name: seq<WideChar>, k: nat): int {
    if k == EntryCount(name) then |name| - CHARS_PER_ENTRY * (k - 1) else CHARS_PER_ENTRY
  }

  lemma EntryPlace(name: seq<WideChar>, k: nat)
    requires Representable(name) && 1 <= k <= EntryCount(name)
    ensures var e := EntryOf(name, k);
      Shaped(e) && Place(e) == CHARS_PER_ENTRY * (k - 1) && (IsLast(e) <==> k == EntryCount(name))
  {
    hide EntryOf;
    OrdinalOf(name, k);
    assert k <= 20;
  }

  lemma OrdinalOf(name: seq<WideChar>, k: nat)
    requires Representable(name) && 1 <= k <= EntryCount(name)
    ensures var e := EntryOf(name, k); Shaped(e) && Ordinal(e) == k && (IsLast(e) <==> k == EntryCount(name))
  {
  }

  /** Entry `k` holds the characters of the name from its place on. */
  lemma EntryText(name: seq<WideChar>, k: nat)
    requires Representable(name) && 1 <= k <= EntryCount(name)
    ensures var e := EntryOf(name, k); Shaped(e) && Place(e) == CHARS_PER_ENTRY * (k - 1) && (IsLast(e) <==> k == EntryCount(name))
    ensures 0 < CharsIn(name, k) <= CHARS_PER_ENTRY
    ensures TextLength(EntryOf(name, k), 0) == CharsIn(name, k)
    ensures CHARS_PER_ENTRY * (k - 1) + CharsIn(name, k) <= |name|
    ensures !Overruns(EntryOf(name, k), MAX_CHARS + 1)
    ensures forall m :: 0 <= m < CharsIn(name, k) ==>
      CharAt(EntryOf(name, k), m) == name[CHARS_PER_ENTRY * (k - 1) + m] % 0x100
  {
    hide EntryOf, CharAt, TextLength, Place, IsLast, Ordinal;
    EntryPlace(name, k);
    var e, first, n := EntryOf(name, k), CHARS_PER_ENTRY * (k - 1), CharsIn(name, k);
    forall m | 0 <= m < CHARS_PER_ENTRY
      ensures CharAt(e, m) == Padded(name, first + m) % 0x100
    {
      EntryCharacters(name, k, m);
    }
    assert n < CHARS_PER_ENTRY ==> first + n == |name|;
    TextEndsAt(e, 0, n);
  }

  lemma EntryCountBounds(name: seq<WideChar>)
    requires Representable(name)
    ensures 0 < EntryCount(name)
    ensures CHARS_PER_ENTRY * (EntryCount(name) - 1) < |name| <= CHARS_PER_ENTRY * EntryCount(name)
  {
  }

  function LowBytes(name: seq<WideChar>): (r: seq<Byte>)
    ensures |r| == |name| && forall i :: 0 <= i < |name| ==> r[i] == name[i] % 0x100
  {
    if name == [] then [] else LowBytes(name[..|name| - 1]) + [name[|name| - 1] % 0x100]
  }

  lemma CharsInMeans(name: seq<WideChar>, k: nat)
    requires 1 <= k <= EntryCount(name)
    ensures CHARS_PER_ENTRY * (k - 1) + CharsIn(name, k) == if k == EntryCount(name) then |name| else CHARS_PER_ENTRY * k
  {
    hide EntryCount;
  }

  /** Entry `k` of a name puts its part of the name, and the last one also the end, into the buffer. */
  method WriteEntry(e: LongEntry, buffer: array<Byte>, ghost name: seq<WideChar>, ghost k: nat)
    requires Representable(name) && 1 <= k <= EntryCount(name) && e == EntryOf(name, k)
    requires buffer.Length == MAX_CHARS + 1
    modifies buffer
    ensures 0 <= CHARS_PER_ENTRY * (k - 1) + CharsIn(name, k) <= |name|
    ensures forall y :: 0 <= y < buffer.Length ==>
      buffer[y] == if CHARS_PER_ENTRY * (k - 1) <= y < CHARS_PER_ENTRY * (k - 1) + CharsIn(name, k) then name[y] % 0x100
                   else if k == EntryCount(name) && y == |name| then 0 else old(buffer[y])
  {
    hide EntryOf, CharAt, TextLength, Shaped, Place, IsLast, EntryCount, Overruns, CharsIn;
    EntryText(name, k);
    CharsInMeans(name, k);
    var status := WritePartialLongName(e, buffer);
    assert status == Success;
  }

  /** The round trip: feeding the long entries of a name in disk order, into a buffer that may
      hold anything, rebuilds the name and its end, and changes nothing behind it. */
  method AccumulateLongName(entries: seq<LongEntry>, buffer: array<Byte>, ghost name: seq<WideChar>)
    requires InDiskOrder(entries, name)
    requires buffer.Length == MAX_CHARS + 1
    modifies buffer
    ensures buffer[..] == LowBytes(name) + [0] + old(buffer[|name| + 1..])
  {
    hide EntryOf, LowBytes, EntryCount, CharsIn;
    EntryCountBounds(name);
    ghost var n := EntryCount(name);
    var x := 0;
    while x < |entries|
      invariant 0 <= x <= n
      invariant forall y :: 0 <= y < buffer.Length ==>
        buffer[y] == if x > 0 && CHARS_PER_ENTRY * (n - x) <= y < |name| then name[y] % 0x100
                     else if x > 0 && y == |name| then 0 else old(buffer[y])
    {
      ghost var k := n - x;
      CharsInMeans(name, k);
      WriteEntry(entries[x], buffer, name, k);
      x := x + 1;
    }
  }
}
