/** Byte-wise memory routines that the key handling rests on: comparison from the last byte
    down, and copying in pieces.
 */
module Memory {

  const DWORD_RANGE := 0x1_0000_0000

  type Byte = x: int | 0 <= x < 0x100

  /** The number that a little-endian byte string stands for. */
  function LittleEndian(k: seq<Byte>): nat {
    if k == [] then 0 else k[0] + 0x100 * LittleEndian(k[1..])
  }

  /** The difference of the last bytes in which the two differ, or 0. */
  function Compare(a: seq<Byte>, b: seq<Byte>): int
    requires |a| == |b|
  {
    if a == [] then 0
    else
      var high := Compare(a[1..], b[1..]);
      if high != 0 then high else a[0] as int - b[0] as int
  }

  /** Comparing from the last byte down orders keys as little-endian numbers, and finds no
      difference exactly between equal keys. */
  lemma {:induction false} CompareIsNumeric(a: seq<Byte>, b: seq<Byte>)
    requires |a| == |b|
    ensures Compare(a, b) < 0 <==> LittleEndian(a) < LittleEndian(b)
    ensures Compare(a, b) == 0 <==> LittleEndian(a) == LittleEndian(b)
    ensures Compare(a, b) == 0 <==> a == b
  {
    if a != [] {
      CompareIsNumeric(a[1..], b[1..]);
      assert a == [a[0]] + a[1..] && b == [b[0]] + b[1..];
    }
  }

  lemma {:induction false} SuffixDecides(a: seq<Byte>, b: seq<Byte>, i: nat)
    requires |a| == |b| && i <= |a|
    ensures Compare(a[i..], b[i..]) != 0 ==> Compare(a, b) == Compare(a[i..], b[i..])
    ensures i == |a| ==> Compare(a[i..], b[i..]) == 0
    decreases i
  {
    if i > 0 {
      SuffixDecides(a, b, i - 1);
      assert a[i - 1..][1..] == a[i..] && b[i - 1..][1..] == b[i..];
    }
  }

  /** cl_rmemcmp. The last index is computed in 32 bits before it is widened: with no bytes to compare
      it is 0xFFFF_FFFF, and the first read is out of bounds. */
  method ReverseCompare(a: seq<Byte>, b: seq<Byte>) returns (outOfBounds: bool, r: int)
    requires |a| == |b| < DWORD_RANGE
    ensures outOfBounds <==> a == []
    ensures !outOfBounds ==> r == Compare(a, b)
  {
    outOfBounds, r := false, 0;
    var i := (|a| - 1) % DWORD_RANGE;
    SuffixDecides(a, b, |a|);
    while i >= 0
      invariant a != [] ==> -1 <= i < |a| && Compare(a[i + 1..], b[i + 1..]) == 0
      invariant a == [] ==> i == DWORD_RANGE - 1
    {
      if i >= |a| {
        return true, 0;
      }
      assert a[i..][1..] == a[i + 1..] && b[i..][1..] == b[i + 1..];
      if a[i] != b[i] {
        SuffixDecides(a, b, i);
        return false, a[i] as int - b[i] as int;
      }
      i := i - 1;
    }
  }

  /** One fixed-size move of `n` bytes at offset `at`. */
  method MovePiece(dst: array<Byte>, src: array<Byte>, at: nat, n: nat)
    requires dst != src && at + n <= dst.Length && at + n <= src.Length
    modifies dst
    ensures forall x :: 0 <= x < dst.Length ==> dst[x] == if at <= x < at + n then src[x] else old(dst[x])
  {
    forall x | at <= x < at + n {
      dst[x] := src[x];
    }
  }

  /** The odd bytes, as the low three bits of the count say: first 4, then 2, then 1. */
  method CopyOdd(dst: array<Byte>, src: array<Byte>, count: nat) returns (at: nat)
    requires dst != src && count <= dst.Length && count <= src.Length
    modifies dst
    ensures at == count % 8
    ensures forall x :: 0 <= x < dst.Length ==> dst[x] == if x < at then src[x] else old(dst[x])
  {
    var unaligned := count % 8;
    at := 0;
    if unaligned / 4 % 2 == 1 {
      MovePiece(dst, src, at, 4);
      at := at + 4;
    }
    if unaligned / 2 % 2 == 1 {
      MovePiece(dst, src, at, 2);
      at := at + 2;
    }
    if unaligned % 2 == 1 {
      MovePiece(dst, src, at, 1);
      at := at + 1;
    }
  }

  /** cl_memcpy: the odd bytes, then the rest in eights. Whatever the count, exactly that many bytes
      are copied. */
  method Copy(dst: array<Byte>, src: array<Byte>, count: nat)
    requires dst != src && count <= dst.Length && count <= src.Length
    modifies dst
    ensures dst[..] == src[..count] + old(dst[count..])
  {
    var at := CopyOdd(dst, src, count);
    var moved := 0;
    while moved < (count - at) / 8
      invariant 0 <= moved <= (count - at) / 8
      invariant forall x :: 0 <= x < dst.Length ==>
        dst[x] == if x < at + 8 * moved then src[x] else old(dst[x])
    {
      MovePiece(dst, src, at + 8 * moved, 8);
      moved := moved + 1;
    }
  }
}
