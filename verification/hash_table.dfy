/** The chained hash table: an array of list heads, each the head of a bucket that is kept in
    ascending key order, over intrusive lists. It is proved to be a finite map from keys to
    the entries inserted with them.
 */
module HashTable {
  import opened IntrusiveList
  import opened Memory
  import opened Counting

  const HEAD_SIZE := 0x10                     // sizeof(HASH_ENTRY)
  const NULL := 0

  type Key = seq<Byte>

  /** Where the heads are, and what is fixed when the table is set up: key size, the key stored
      next to an entry (`OffsetToKey` bytes away), and the hash function. */
  datatype Config = Config(tableData: Ptr, maxKeys: nat, keySize: nat, keyAt: Ptr -> Key, hash: Key -> nat) {
    function Head(i: nat): Ptr { tableData + HEAD_SIZE * i }

    predicate IsHead(p: Ptr) { tableData <= p < tableData + HEAD_SIZE * maxKeys }

    function Order(p: Ptr): nat { LittleEndian(keyAt(p)) }
  }

  ghost predicate Proper(c: Config) {
    && 0 < c.maxKeys && 0 < c.keySize && NULL < c.tableData
    && (forall p :: |c.keyAt(p)| == c.keySize)
    && (forall k :: |k| == c.keySize ==> c.hash(k) < c.maxKeys)
  }

  // ---------------------------------------------------------------- hash functions

  function HashIncremental(key: Key, maxKeys: nat): (r: nat)
    requires maxKeys > 0
    ensures r < maxKeys
  {
    LittleEndian(key) % maxKeys
  }

  const UNIVERSAL_A := 1701
  const UNIVERSAL_B := 59
  const UNIVERSAL_P := 10007

  function HashUniversal(key: Key, maxKeys: nat): (r: nat)
    requires maxKeys > 0
    ensures r < maxKeys
  {
    (UNIVERSAL_A * (LittleEndian(key) % UNIVERSAL_P) + UNIVERSAL_B) % UNIVERSAL_P % maxKeys
  }

  /** Zero bytes above a key do not change the number it stands for. */
  lemma {:induction false} PaddingKeepsValue(key: Key, padding: Key)
    requires forall i :: 0 <= i < |padding| ==> padding[i] == 0
    ensures LittleEndian(key + padding) == LittleEndian(key)
    decreases |key| + |padding|
  {
    if key != [] {
      assert (key + padding)[1..] == key[1..] + padding;
      PaddingKeepsValue(key[1..], padding);
    } else if padding != [] {
      assert key + padding == padding && (key + padding)[1..] == [] + padding[1..];
      PaddingKeepsValue([], padding[1..]);
    }
  }

  lemma {:induction false} ValueFits(key: Key)
    requires |key| <= 8
    ensures LittleEndian(key) < 0x1_0000_0000_0000_0000
  {
    assert key == key[..|key|];
    PaddingKeepsValue(key, seq(8 - |key|, i => 0));
    var k := key + seq(8 - |key|, i => 0);
    assert |k| == 8 && k[1..][1..] == k[2..] && k[2..][1..] == k[3..] && k[3..][1..] == k[4..] && k[4..][1..] == k[5..]
        && k[5..][1..] == k[6..] && k[6..][1..] == k[7..] && k[7..][1..] == [];
    assert LittleEndian(k[7..]) < 0x100 && LittleEndian(k[6..]) < 0x1_0000 && LittleEndian(k[5..]) < 0x100_0000;
    assert LittleEndian(k[4..]) < 0x1_0000_0000 && LittleEndian(k[3..]) < 0x100_0000_0000;
    assert LittleEndian(k[2..]) < 0x1_0000_0000_0000;
  }

  /** A key of more than 8 bytes is copied beyond the end of the variable it is loaded into. */
  datatype Hash = Bucket(index: nat) | Overrun

  /** Copies the key over a zeroed 8-byte variable. */
  method LoadKey(key: array<Byte>) returns (overrun: bool, keyValue: nat)
    ensures overrun <==> key.Length > 8
    ensures !overrun ==> keyValue == LittleEndian(key[..]) < 0x1_0000_0000_0000_0000
  {
    overrun, keyValue := key.Length > 8, 0;
    if overrun {
      return;
    }
    var bytes := new Byte[8](i => 0);
    ghost var padding := bytes[key.Length..];
    Copy(bytes, key, key.Length);
    assert key[..key.Length] == key[..];
    PaddingKeepsValue(key[..], padding);
    ValueFits(key[..]);
    keyValue := LittleEndian(bytes[..]);
  }

  method HashFuncGenericIncremental(key: array<Byte>, maxKeys: nat) returns (r: Hash)
    requires maxKeys > 0
    ensures r == if key.Length > 8 then Overrun else Bucket(LittleEndian(key[..]) % maxKeys)
    ensures r.Bucket? ==> r.index == HashIncremental(key[..], maxKeys) < maxKeys
  {
    var overrun, keyValue := LoadKey(key);
    r := if overrun then Overrun else Bucket(keyValue % maxKeys);
  }

  /** Reducing first keeps the product within 64 bits. */
  method HashFuncUniversal(key: array<Byte>, maxKeys: nat) returns (r: Hash)
    requires maxKeys > 0
    ensures r == if key.Length > 8 then Overrun
                 else Bucket((1701 * (LittleEndian(key[..]) % 10007) + 59) % 10007 % maxKeys)
    ensures r.Bucket? ==> r.index == HashUniversal(key[..], maxKeys) < maxKeys
  {
    var overrun, keyValue := LoadKey(key);
    var result := keyValue % UNIVERSAL_P;
    assert UNIVERSAL_A * result + UNIVERSAL_B < 0x1_0000_0000_0000_0000;
    r := if overrun then Overrun else Bucket((UNIVERSAL_A * result + UNIVERSAL_B) % UNIVERSAL_P % maxKeys);
  }

  // ---------------------------------------------------------------- buckets

  function RingOf(c: Config, i: nat, b: seq<Ptr>): (s: seq<Ptr>)
    ensures |s| == |b| + 1 && s[0] == c.Head(i)
    ensures forall j :: 1 <= j < |s| ==> s[j] == b[j - 1]
  {
    [c.Head(i)] + b
  }

  /** Ascending in the number the key stands for; so no two entries have equal keys. */
  ghost predicate Ascending(c: Config, b: seq<Ptr>) {
    forall j, k :: 0 <= j < k < |b| ==> c.Order(b[j]) < c.Order(b[k])
  }

  ghost predicate Belongs(c: Config, i: nat, p: Ptr) {
    p != NULL && !c.IsHead(p) && c.hash(c.keyAt(p)) == i
  }

  ghost predicate BucketOk(c: Config, m: Links, i: nat, b: seq<Ptr>) {
    && Ring(m, RingOf(c, i, b))
    && Ascending(c, b)
    && forall p :: p in b ==> Belongs(c, i, p)
  }

  ghost predicate TableOk(c: Config, m: Links, buckets: seq<seq<Ptr>>) {
    && |buckets| == c.maxKeys
    && forall i :: 0 <= i < |buckets| ==> BucketOk(c, m, i, buckets[i])
  }

  /** The table as a map: every listed entry under its key, and nothing else. */
  ghost predicate Represents(c: Config, buckets: seq<seq<Ptr>>, contents: map<Key, Ptr>) {
    && (forall i, p :: 0 <= i < |buckets| && p in buckets[i] ==> Maps(contents, c.keyAt(p), p))
    && (forall k :: k in contents ==> Stored(c, buckets, k, contents[k]))
    && |contents| == Total(buckets, LengthOf)
  }

  predicate Maps(contents: map<Key, Ptr>, k: Key, p: Ptr) {
    k in contents && contents[k] == p
  }

  predicate Stored(c: Config, buckets: seq<seq<Ptr>>, k: Key, p: Ptr) {
    |k| == c.keySize && c.keyAt(p) == k && c.hash(k) < |buckets| && p in buckets[c.hash(k)]
  }

  function LengthOf(bucket: seq<Ptr>): nat { |bucket| }

  /** Rings of different buckets share no address. */
  lemma RingsApart(c: Config, m: Links, buckets: seq<seq<Ptr>>, i: nat, k: nat)
    requires Proper(c) && TableOk(c, m, buckets) && i < |buckets| && k < |buckets| && i != k
    ensures forall p :: p in RingOf(c, i, buckets[i]) ==> p !in RingOf(c, k, buckets[k])
  {
    var s, t := RingOf(c, i, buckets[i]), RingOf(c, k, buckets[k]);
    assert BucketOk(c, m, i, buckets[i]) && BucketOk(c, m, k, buckets[k]);
    forall x, y | 0 <= x < |s| && 0 <= y < |t|
      ensures s[x] != t[y]
    {
      assert x > 0 ==> Belongs(c, i, buckets[i][x - 1]);
      assert y > 0 ==> Belongs(c, k, buckets[k][y - 1]);
    }
  }

  /** Only the words of the entries in `s` and of `e` may differ. */
  ghost predicate SameOutside(m: Links, m': Links, s: seq<Ptr>, e: Ptr) {
    forall p :: p !in s && p != e ==> Agree(m, m', [p])
  }

  lemma SameOutsideAgrees(m: Links, m': Links, s: seq<Ptr>, e: Ptr, t: seq<Ptr>)
    requires SameOutside(m, m', s, e)
    requires forall p :: p in t ==> p !in s && p != e
    ensures Agree(m, m', t)
  {
    forall p | p in t
      ensures Agree(m, m', [p])
    {
    }
    assert forall p :: p in t ==> p in [p];
  }

  /** Changing the words of one ring and of an entry outside all rings leaves the other
      buckets alone. */
  lemma OtherBucketsStay(c: Config, m: Links, m': Links, buckets: seq<seq<Ptr>>, i: nat, b: seq<Ptr>, e: Ptr)
    requires Proper(c) && TableOk(c, m, buckets) && i < |buckets|
    requires SameOutside(m, m', RingOf(c, i, buckets[i]), e)
    requires forall k :: 0 <= k < |buckets| && k != i ==> e !in RingOf(c, k, buckets[k])
    requires BucketOk(c, m', i, b)
    ensures TableOk(c, m', buckets[i := b])
  {
    hide SameOutside, Agree, Ring, Ascending;
    forall k | 0 <= k < |buckets| && k != i
      ensures BucketOk(c, m', k, buckets[k])
    {
      RingsApart(c, m, buckets, i, k);
      assert BucketOk(c, m, k, buckets[k]);
      SameOutsideAgrees(m, m', RingOf(c, i, buckets[i]), e, RingOf(c, k, buckets[k]));
      AgreeKeepsRing(m, m', RingOf(c, k, buckets[k]));
    }
  }

  /** A key's entry can only be in the bucket of its hash. */
  lemma AbsentElsewhere(c: Config, m: Links, buckets: seq<seq<Ptr>>, contents: map<Key, Ptr>, e: Ptr, k: nat)
    requires Proper(c) && TableOk(c, m, buckets) && Represents(c, buckets, contents) && k < |buckets|
    requires e != NULL && !c.IsHead(e)
    requires c.hash(c.keyAt(e)) != k || (c.keyAt(e) in contents ==> contents[c.keyAt(e)] != e)
    ensures e !in RingOf(c, k, buckets[k])
  {
    var s := RingOf(c, k, buckets[k]);
    assert BucketOk(c, m, k, buckets[k]);
    forall x | 0 <= x < |s|
      ensures s[x] != e
    {
      if x > 0 {
        assert Belongs(c, k, buckets[k][x - 1]);
      }
    }
  }

  // ---------------------------------------------------------------- updates

  /** Where a key belongs in a bucket: the entries before position `x` are smaller, those from
      `x` on (or behind `x`, if the key is found there) larger. */
  ghost predicate Placed(c: Config, b: seq<Ptr>, key: Key, x: nat, found: bool) {
    && x <= |b|
    && (forall j :: 0 <= j < x ==> c.Order(b[j]) < LittleEndian(key))
    && (forall j :: (if found then x + 1 else x) <= j < |b| ==> LittleEndian(key) < c.Order(b[j]))
    && (found ==> x < |b| && c.keyAt(b[x]) == key)
  }

  /** The comparison a bucket search makes, from the entry's key to the one looked for. */
  function Comparison(c: Config, key: Key): Ptr -> int {
    (p: Ptr) => if |c.keyAt(p)| == |key| then Compare(c.keyAt(p), key) else 0
  }

  lemma ComparisonIsNumeric(c: Config, key: Key, p: Ptr)
    requires Proper(c) && |key| == c.keySize
    ensures Comparison(c, key)(p) < 0 <==> c.Order(p) < LittleEndian(key)
    ensures Comparison(c, key)(p) == 0 <==> c.Order(p) == LittleEndian(key)
    ensures Comparison(c, key)(p) == 0 <==> c.keyAt(p) == key
  {
    CompareIsNumeric(c.keyAt(p), key);
  }

  lemma StopIndexBounds(s: seq<Ptr>, compare: Ptr -> int)
    requires |s| > 0
    ensures var i := StopIndex(s, true, compare, 1);
      && 1 <= i <= |s|
      && (i == |s| > 1 ==> compare(s[|s| - 1]) < 0)
      && (i < |s| && compare(s[i]) != 0 ==> compare(s[i]) > 0)
  {
  }

  /** The search stops where the key belongs. */
  lemma StopIndexPlaces(c: Config, i: nat, b: seq<Ptr>, key: Key)
    requires Proper(c) && Ascending(c, b) && |key| == c.keySize
    ensures var s := RingOf(c, i, b);
            var x := StopIndex(s, true, Comparison(c, key), 1);
      Placed(c, b, key, x - 1, x < |s| && Comparison(c, key)(s[x]) == 0)
  {
    var s, compare := RingOf(c, i, b), Comparison(c, key);
    hide StopIndex, Compare, Comparison, LittleEndian, Config.Order;
    var x := StopIndex(s, true, compare, 1);
    forall j | 0 <= j < |b|
      ensures j + 1 < x ==> c.Order(b[j]) < LittleEndian(key)
      ensures j + 1 > x || (j + 1 == x && compare(s[x]) != 0) ==> LittleEndian(key) < c.Order(b[j])
    {
      assert s[j + 1] == b[j];
      ComparisonIsNumeric(c, key, b[j]);
      if j + 1 > x {
        assert s[x] == b[x - 1] && c.Order(b[x - 1]) < c.Order(b[j]);
        ComparisonIsNumeric(c, key, b[x - 1]);
      }
    }
    if x < |s| {
      assert s[x] == b[x - 1];
      ComparisonIsNumeric(c, key, b[x - 1]);
    }
  }

  /** The bucket after insertion: the old entry replaced, or a new one in between. */
  function BucketWith(b: seq<Ptr>, x: nat, found: bool, e: Ptr): seq<Ptr>
    requires x <= |b| && (found ==> x < |b|)
  {
    if found then b[x := e] else WithInserted(b, x, e)
  }

  lemma BucketWithIsAscending(c: Config, b: seq<Ptr>, x: nat, found: bool, e: Ptr)
    requires Ascending(c, b) && Placed(c, b, c.keyAt(e), x, found)
    ensures Ascending(c, BucketWith(b, x, found, e))
  {
    hide LittleEndian;
    var b' := BucketWith(b, x, found, e);
    forall j, k | 0 <= j < k < |b'|
      ensures c.Order(b'[j]) < c.Order(b'[k])
    {
      var j' := if found || j < x then j else j - 1;
      var k' := if found || k < x then k else k - 1;
      assert j != x ==> b'[j] == b[j'];
      assert k != x ==> b'[k] == b[k'];
    }
  }

  lemma InsertedMembers(b: seq<Ptr>, x: nat, e: Ptr, p: Ptr)
    requires x <= |b|
    ensures p in WithInserted(b, x, e) <==> p == e || p in b
  {
    var b' := WithInserted(b, x, e);
    assert b'[x] == e;
    if p in b {
      var z :| 0 <= z < |b| && b[z] == p;
      assert b'[if z < x then z else z + 1] == p;
    }
  }

  lemma ReplacedMembers(c: Config, b: seq<Ptr>, x: nat, e: Ptr, p: Ptr)
    requires Ascending(c, b) && x < |b|
    ensures p in b[x := e] <==> p == e || (p in b && p != b[x])
  {
    var b' := b[x := e];
    assert b'[x] == e;
    if p in b && p != b[x] {
      var z :| 0 <= z < |b| && b[z] == p;
      assert b'[z] == p;
    }
    if p in b' && p != e {
      var z :| 0 <= z < |b'| && b'[z] == p;
      assert b[z] == p && c.Order(b[z]) != c.Order(b[x]);
    }
  }

  lemma BucketWithMembers(c: Config, b: seq<Ptr>, x: nat, found: bool, e: Ptr, p: Ptr)
    requires Ascending(c, b) && x <= |b| && (found ==> x < |b|)
    ensures p in BucketWith(b, x, found, e) <==> p == e || (p in b && !(found && p == b[x]))
  {
    if found {
      ReplacedMembers(c, b, x, e, p);
    } else {
      InsertedMembers(b, x, e, p);
    }
  }

  lemma WithoutMembers(c: Config, b: seq<Ptr>, x: nat, p: Ptr)
    requires Ascending(c, b) && x < |b|
    ensures p in Without(b, x) <==> p in b && p != b[x]
  {
    hide LittleEndian, Config.Order;
    var b' := Without(b, x);
    if p in b && p != b[x] {
      var z :| 0 <= z < |b| && b[z] == p;
      assert b'[if z < x then z else z - 1] == p;
    }
    if p in b' {
      var z :| 0 <= z < |b'| && b'[z] == p;
      assert b[if z < x then z else z + 1] == p;
      assert c.Order(b[if z < x then z else z + 1]) != c.Order(b[x]);
    }
  }

  lemma WithoutIsAscending(c: Config, b: seq<Ptr>, x: nat)
    requires Ascending(c, b) && x < |b|
    ensures Ascending(c, Without(b, x))
  {
    var b' := Without(b, x);
    assert forall z :: 0 <= z < |b'| ==> b'[z] == b[if z < x then z else z + 1];
  }

  lemma FoundIffPresent(c: Config, buckets: seq<seq<Ptr>>, contents: map<Key, Ptr>, key: Key, x: nat, found: bool)
    requires Represents(c, buckets, contents) && c.hash(key) < |buckets|
    requires Placed(c, buckets[c.hash(key)], key, x, found)
    ensures found <==> key in contents
    ensures found ==> contents[key] == buckets[c.hash(key)][x]
  {
    var b := buckets[c.hash(key)];
    if found {
      assert b[x] in b && Maps(contents, c.keyAt(b[x]), b[x]);
    }
    if key in contents {
      assert Stored(c, buckets, key, contents[key]);
      var z :| 0 <= z < |b| && b[z] == contents[key];
      assert c.Order(b[z]) == LittleEndian(key);
    }
  }

  /** Every entry listed after an insertion is mapped. */
  lemma InsertedIsMapped(c: Config, m: Links, buckets: seq<seq<Ptr>>, contents: map<Key, Ptr>, e: Ptr, x: nat, found: bool,
                         i: nat, p: Ptr)
    requires TableOk(c, m, buckets) && Represents(c, buckets, contents) && c.hash(c.keyAt(e)) < |buckets|
    requires x <= |buckets[c.hash(c.keyAt(e))]| && (found ==> x < |buckets[c.hash(c.keyAt(e))]|)
    requires found ==> c.keyAt(buckets[c.hash(c.keyAt(e))][x]) == c.keyAt(e)
    requires !found ==> c.keyAt(e) !in contents
    requires var h := c.hash(c.keyAt(e));
      i < |buckets| && p in (if i == h then BucketWith(buckets[h], x, found, e) else buckets[i])
    ensures Maps(contents[c.keyAt(e) := e], c.keyAt(p), p)
  {
    hide BucketWith, Ring, LittleEndian, Config.Order, Config.IsHead, Ascending, Total;
    var h := c.hash(c.keyAt(e));
    assert BucketOk(c, m, i, buckets[i]);
    if i != h {
      assert Belongs(c, i, p) && Maps(contents, c.keyAt(p), p);
    } else {
      BucketWithMembers(c, buckets[h], x, found, e, p);
      if p != e {
        var b := buckets[h];
        assert Maps(contents, c.keyAt(p), p);
        if found {
          assert b[x] in b && Maps(contents, c.keyAt(b[x]), b[x]);
        }
      }
    }
  }

  /** Insertion is map update. */
  lemma InsertRepresents(c: Config, m: Links, buckets: seq<seq<Ptr>>, contents: map<Key, Ptr>, e: Ptr, x: nat, found: bool)
    requires Proper(c) && TableOk(c, m, buckets) && Represents(c, buckets, contents)
    requires c.hash(c.keyAt(e)) < |buckets|
    requires Placed(c, buckets[c.hash(c.keyAt(e))], c.keyAt(e), x, found)
    ensures var h := c.hash(c.keyAt(e));
      Represents(c, buckets[h := BucketWith(buckets[h], x, found, e)], contents[c.keyAt(e) := e])
  {
    var key := c.keyAt(e);
    var h := c.hash(key);
    var b := buckets[h];
    assert BucketOk(c, m, h, b);
    FoundIffPresent(c, buckets, contents, key, x, found);
    assert found ==> c.keyAt(b[x]) == key;
    var b' := BucketWith(b, x, found, e);
    var buckets', contents' := buckets[h := b'], contents[key := e];
    hide LittleEndian, Config.Order, Config.IsHead, BucketWith, Ring, Total, Ascending, Placed, TableOk;
    TotalUpdate(buckets, LengthOf, h, b');
    BucketWithLength(b, x, found, e);
    CountWith(contents, key, e);
    forall i, p | 0 <= i < |buckets'| && p in buckets'[i]
      ensures Maps(contents', c.keyAt(p), p)
    {
      InsertedIsMapped(c, m, buckets, contents, e, x, found, i, p);
    }
    forall k | k in contents'
      ensures Stored(c, buckets', k, contents'[k])
    {
      InsertedIsStored(c, buckets, contents, e, x, found, k);
    }
  }

  /** Every mapping after an insertion is stored. */
  lemma InsertedIsStored(c: Config, buckets: seq<seq<Ptr>>, contents: map<Key, Ptr>, e: Ptr, x: nat, found: bool, k: Key)
    requires Represents(c, buckets, contents) && c.hash(c.keyAt(e)) < |buckets| && |c.keyAt(e)| == c.keySize
    requires var b := buckets[c.hash(c.keyAt(e))];
      Ascending(c, b) && x <= |b| && (found ==> x < |b| && c.keyAt(b[x]) == c.keyAt(e))
    requires k in contents || k == c.keyAt(e)
    ensures var h := c.hash(c.keyAt(e));
      Stored(c, buckets[h := BucketWith(buckets[h], x, found, e)], k, if k == c.keyAt(e) then e else contents[k])
  {
    hide BucketWith, Ascending, Total, LittleEndian, Config.Order;
    var key := c.keyAt(e);
    var b := buckets[c.hash(key)];
    if k == key {
      BucketWithMembers(c, b, x, found, e, e);
    } else {
      BucketWithMembers(c, b, x, found, e, contents[k]);
      assert Stored(c, buckets, k, contents[k]);
    }
  }

  lemma BucketWithLength(b: seq<Ptr>, x: nat, found: bool, e: Ptr)
    requires x <= |b| && (found ==> x < |b|)
    ensures |BucketWith(b, x, found, e)| == if found then |b| else |b| + 1
  {
  }

  /** Removing a listed entry removes its key. */
  lemma RemoveRepresents(c: Config, m: Links, buckets: seq<seq<Ptr>>, contents: map<Key, Ptr>, i: nat, x: nat)
    requires Proper(c) && TableOk(c, m, buckets) && Represents(c, buckets, contents)
    requires i < |buckets| && x < |buckets[i]|
    ensures Maps(contents, c.keyAt(buckets[i][x]), buckets[i][x])
    ensures Represents(c, buckets[i := Without(buckets[i], x)], contents - {c.keyAt(buckets[i][x])})
  {
    hide LittleEndian, Config.Order, Config.IsHead, Ring, Total, Ascending;
    var e, b := buckets[i][x], buckets[i];
    var b' := Without(b, x);
    var key := c.keyAt(e);
    var buckets', contents' := buckets[i := b'], contents - {key};
    assert BucketOk(c, m, i, b) && Belongs(c, i, e) && Maps(contents, key, e);
    TotalUpdate(buckets, LengthOf, i, b');
    assert contents'.Keys == contents.Keys - {key};
    assert |contents'.Keys| == |contents.Keys| - 1;
    forall y, p | 0 <= y < |buckets'| && p in buckets'[y]
      ensures Maps(contents', c.keyAt(p), p)
    {
      if y != i {
        assert BucketOk(c, m, y, buckets[y]) && Belongs(c, y, p) && Maps(contents, c.keyAt(p), p);
      } else {
        WithoutMembers(c, b, x, p);
        assert Maps(contents, c.keyAt(p), p);
      }
    }
    forall k | k in contents'
      ensures Stored(c, buckets', k, contents'[k])
    {
      assert Stored(c, buckets, k, contents[k]);
      WithoutMembers(c, b, x, contents[k]);
    }
  }

  lemma AbsentFromTable(c: Config, m: Links, buckets: seq<seq<Ptr>>, contents: map<Key, Ptr>, e: Ptr)
    requires Proper(c) && TableOk(c, m, buckets) && Represents(c, buckets, contents)
    requires e != NULL && !c.IsHead(e) && e !in contents.Values
    ensures forall k :: 0 <= k < |buckets| ==> e !in RingOf(c, k, buckets[k])
  {
    forall k | 0 <= k < |buckets|
      ensures e !in RingOf(c, k, buckets[k])
    {
      AbsentElsewhere(c, m, buckets, contents, e, k);
    }
  }

  /** The words after an insertion: the new entry linked in, the one it replaces unlinked. */
  function WordsWith(m: Links, s: seq<Ptr>, x: nat, found: bool, e: Ptr): Links
    requires x < |s| && s[x] in m.flink && (found ==> x + 1 < |s| && s[x + 1] in m.flink && s[x + 1] in m.blink)
    requires found ==> s[x + 1] != e
  {
    if found then Unlink(InsertAfter(m, s[x + 1], e), s[x + 1]) else InsertAfter(m, s[x], e)
  }

  lemma AddKeepsBucket(c: Config, m: Links, h: nat, b: seq<Ptr>, e: Ptr, x: nat)
    requires BucketOk(c, m, h, b) && x <= |b| && e !in RingOf(c, h, b)
    requires Belongs(c, h, e) && Placed(c, b, c.keyAt(e), x, false)
    ensures var s := RingOf(c, h, b);
      && s[x] in m.flink
      && BucketOk(c, InsertAfter(m, s[x], e), h, BucketWith(b, x, false, e))
      && SameOutside(m, InsertAfter(m, s[x], e), s, e)
  {
    hide Ring, Agree, Placed, Ascending, Belongs, InsertAfter;
    var s, b' := RingOf(c, h, b), BucketWith(b, x, false, e);
    EntryMapped(m, s, x);
    InsertAfterKeepsRing(m, s, x, e);
    BucketWithIsAscending(c, b, x, false, e);
    assert WithInserted(s, x + 1, e) == RingOf(c, h, b');
    forall p | p in b'
      ensures Belongs(c, h, p)
    {
      InsertedMembers(b, x, e, p);
    }
  }

  lemma ReplaceKeepsBucket(c: Config, m: Links, h: nat, b: seq<Ptr>, e: Ptr, x: nat)
    requires BucketOk(c, m, h, b) && x < |b| && e !in RingOf(c, h, b)
    requires Belongs(c, h, e) && Placed(c, b, c.keyAt(e), x, true)
    ensures var s := RingOf(c, h, b); var m1 := WithInserted(s, x + 2, e);
      && s[x + 1] == b[x] && b[x] in m.flink && b[x] in m.blink && b[x] != e
      && BucketOk(c, Unlink(InsertAfter(m, b[x], e), b[x]), h, BucketWith(b, x, true, e))
      && SameOutside(m, Unlink(InsertAfter(m, b[x], e), b[x]), s, e)
  {
    var s, b' := RingOf(c, h, b), BucketWith(b, x, true, e);
    assert s[x + 1] == b[x] && s[x + 1] in s;
    var s1, m1 := WithInserted(s, x + 2, e), InsertAfter(m, b[x], e);
    InsertAfterKeepsRing(m, s, x + 1, e);
    UnlinkKeepsRing(m1, s1, x + 1);
    BucketWithIsAscending(c, b, x, true, e);
    hide Ring, Placed, Ascending, Belongs, InsertAfter, Unlink;
    assert Without(s1, x + 1) == RingOf(c, h, b');
    forall p | p in b'
      ensures Belongs(c, h, p)
    {
    }
    forall p | p !in s && p != e
      ensures Agree(m, Unlink(m1, b[x]), [p])
    {
      InsertedMembers(s, x + 2, e, p);
      assert Agree(m, m1, [p]) && Agree(m1, Unlink(m1, b[x]), [p]);
    }
  }

  lemma InsertKeepsTable(c: Config, m: Links, buckets: seq<seq<Ptr>>, e: Ptr, x: nat, found: bool)
    requires Proper(c) && TableOk(c, m, buckets)
    requires e != NULL && !c.IsHead(e)
    requires forall k :: 0 <= k < |buckets| ==> e !in RingOf(c, k, buckets[k])
    requires Placed(c, buckets[c.hash(c.keyAt(e))], c.keyAt(e), x, found)
    ensures var h := c.hash(c.keyAt(e)); var b := buckets[h]; var s := RingOf(c, h, b);
      && x < |s| && s[x] in m.flink && (found ==> x + 1 < |s| && s[x + 1] in m.flink && s[x + 1] in m.blink)
      && (found ==> s[x + 1] != e)
      && TableOk(c, WordsWith(m, s, x, found, e), buckets[h := BucketWith(b, x, found, e)])
  {
    hide Ring, Ascending, BucketWith, SameOutside, InsertAfter, Unlink, LittleEndian, Config.Order;
    var h := c.hash(c.keyAt(e));
    var b := buckets[h];
    var s := RingOf(c, h, b);
    assert BucketOk(c, m, h, b);
    if found {
      assert s[x + 1] == b[x];
      ReplaceKeepsBucket(c, m, h, b, e, x);
      assert s[x] in m.flink by { EntryMapped(m, s, x); }
    } else {
      AddKeepsBucket(c, m, h, b, e, x);
    }
    OtherBucketsStay(c, m, WordsWith(m, s, x, found, e), buckets, h, BucketWith(b, x, found, e), e);
  }

  lemma EntryMapped(m: Links, s: seq<Ptr>, i: nat)
    requires Ring(m, s) && i < |s|
    ensures s[i] in m.flink && s[i] in m.blink
  {
  }

  // ---------------------------------------------------------------- the whole table, entry by entry

  function Flatten(buckets: seq<seq<Ptr>>): seq<Ptr> {
    if buckets == [] then [] else buckets[0] + Flatten(buckets[1..])
  }

  lemma {:induction false} FlattenMember(buckets: seq<seq<Ptr>>, p: Ptr)
    ensures p in Flatten(buckets) <==> exists i :: 0 <= i < |buckets| && p in buckets[i]
  {
    if buckets != [] {
      FlattenMember(buckets[1..], p);
      assert forall i :: 0 <= i < |buckets[1..]| ==> buckets[1..][i] == buckets[i + 1];
      if p in Flatten(buckets[1..]) {
        var i :| 0 <= i < |buckets[1..]| && p in buckets[1..][i];
        assert p in buckets[i + 1];
      }
      forall i | 0 <= i < |buckets| && p in buckets[i]
        ensures p in Flatten(buckets)
      {
        assert i > 0 ==> p in buckets[1..][i - 1];
      }
    }
  }

  /** The entries from bucket `k` on, one after the other, are all different. */
  lemma {:induction false} FlattenDistinct(c: Config, m: Links, buckets: seq<seq<Ptr>>, k: nat)
    requires Proper(c) && TableOk(c, m, buckets) && k <= |buckets|
    ensures Distinct(Flatten(buckets[k..]))
    ensures forall p :: p in Flatten(buckets[k..]) ==> c.hash(c.keyAt(p)) >= k
    decreases |buckets| - k
  {
    if k < |buckets| {
      FlattenDistinct(c, m, buckets, k + 1);
      var b, rest := buckets[k], Flatten(buckets[k + 1..]);
      assert buckets[k..][1..] == buckets[k + 1..];
      assert BucketOk(c, m, k, b);
      forall x, y | 0 <= x < y < |b + rest|
        ensures (b + rest)[x] != (b + rest)[y]
      {
        if y < |b| {
          assert c.Order(b[x]) < c.Order(b[y]);
        } else {
          assert rest[y - |b|] in rest;
          assert x < |b| ==> b[x] in b && Belongs(c, k, b[x]);
        }
      }
      forall p | p in b + rest
        ensures c.hash(c.keyAt(p)) >= k
      {
        assert p in b ==> Belongs(c, k, p);
      }
    }
  }

  /** The entries of the table, each once, are the values of the map. */
  lemma FlattenIsContents(c: Config, m: Links, buckets: seq<seq<Ptr>>, contents: map<Key, Ptr>)
    requires Proper(c) && TableOk(c, m, buckets) && Represents(c, buckets, contents)
    ensures Distinct(Flatten(buckets))
    ensures forall p :: p in Flatten(buckets) <==> p in contents.Values
    ensures |Flatten(buckets)| == |contents|
  {
    assert buckets[0..] == buckets;
    FlattenDistinct(c, m, buckets, 0);
    FlattenLength(buckets);
    forall p
      ensures p in Flatten(buckets) <==> p in contents.Values
    {
      FlattenMember(buckets, p);
      if p in Flatten(buckets) {
        var i :| 0 <= i < |buckets| && p in buckets[i];
        assert Maps(contents, c.keyAt(p), p);
      }
      if p in contents.Values {
        var k :| k in contents && contents[k] == p;
        assert Stored(c, buckets, k, p);
      }
    }
  }

  lemma {:induction false} FlattenLength(buckets: seq<seq<Ptr>>)
    ensures |Flatten(buckets)| == Total(buckets, LengthOf)
  {
    if buckets != [] {
      FlattenLength(buckets[1..]);
      TotalFirst(buckets);
    }
  }

  lemma {:induction false} TotalFirst(buckets: seq<seq<Ptr>>)
    requires buckets != []
    ensures Total(buckets, LengthOf) == |buckets[0]| + Total(buckets[1..], LengthOf)
  {
    if |buckets| > 1 {
      TotalFirst(buckets[..|buckets| - 1]);
      assert buckets[..|buckets| - 1][1..] == buckets[1..][..|buckets| - 2];
    }
  }

  // ---------------------------------------------------------------- iteration

  /** The iterator stands in bucket `keyIndex` before entry `p` of it; `pending` is what it still
      has to return. */
  ghost predicate At(c: Config, buckets: seq<seq<Ptr>>, keyIndex: nat, current: Ptr, p: nat, pending: seq<Ptr>) {
    && keyIndex < |buckets| && p <= |buckets[keyIndex]|
    && current == (if p < |buckets[keyIndex]| then buckets[keyIndex][p] else c.Head(keyIndex))
    && pending == buckets[keyIndex][p..] + Flatten(buckets[keyIndex + 1..])
  }

  ghost predicate Iterating(c: Config, buckets: seq<seq<Ptr>>, keyIndex: nat, head: Ptr, current: Ptr, pending: seq<Ptr>) {
    && keyIndex <= |buckets|
    && (keyIndex < |buckets| ==> head == c.Head(keyIndex) && exists p: nat :: At(c, buckets, keyIndex, current, p, pending))
    && (keyIndex == |buckets| ==> pending == [])
  }

  /** Everything from the iterator's position on is pending. */
  lemma AheadIsPending(c: Config, buckets: seq<seq<Ptr>>, keyIndex: nat, current: Ptr, p: nat, pending: seq<Ptr>, i: nat, x: nat)
    requires At(c, buckets, keyIndex, current, p, pending)
    requires i < |buckets| && x < |buckets[i]| && (i > keyIndex || (i == keyIndex && p <= x))
    ensures buckets[i][x] in pending
  {
    if i > keyIndex {
      FlattenMember(buckets[keyIndex + 1..], buckets[i][x]);
      assert buckets[keyIndex + 1..][i - keyIndex - 1] == buckets[i];
    } else {
      assert buckets[i][p..][x - p] == buckets[i][x];
    }
  }

  /** Removing an entry that the iterator has already returned does not disturb it. */
  lemma RemoveKeepsIterating(c: Config, buckets: seq<seq<Ptr>>, keyIndex: nat, head: Ptr, current: Ptr,
                             pending: seq<Ptr>, i: nat, x: nat)
    requires Iterating(c, buckets, keyIndex, head, current, pending)
    requires i < |buckets| && x < |buckets[i]| && buckets[i][x] !in pending
    ensures Iterating(c, buckets[i := Without(buckets[i], x)], keyIndex, head, current, pending)
  {
    if keyIndex < |buckets| {
      var p: nat :| At(c, buckets, keyIndex, current, p, pending);
      if i > keyIndex || (i == keyIndex && p <= x) {
        AheadIsPending(c, buckets, keyIndex, current, p, pending, i, x);
      }
      var b, b' := buckets[i], Without(buckets[i], x);
      var buckets' := buckets[i := b'];
      assert buckets'[keyIndex + 1..] == buckets[keyIndex + 1..];
      if i == keyIndex {
        assert b'[p - 1..] == b[p..];
        assert At(c, buckets', keyIndex, current, p - 1, pending);
      } else {
        assert At(c, buckets', keyIndex, current, p, pending);
      }
    }
  }

  function EmptyBuckets(n: nat): (r: seq<seq<Ptr>>)
    ensures |r| == n
    ensures forall i :: 0 <= i < n ==> r[i] == []
  {
    seq(n, i => [])
  }

  lemma {:induction false} TotalEmpty(n: nat)
    ensures Total(EmptyBuckets(n), LengthOf) == 0
  {
    if n > 0 {
      assert EmptyBuckets(n)[..n - 1] == EmptyBuckets(n - 1);
      TotalEmpty(n - 1);
    }
  }

  lemma EmptyBucketOk(c: Config, m: Links, i: nat)
    ensures BucketOk(c, Links(m.flink[c.Head(i) := c.Head(i)], m.blink[c.Head(i) := c.Head(i)]), i, [])
  {
  }

  lemma EmptyBucketStays(c: Config, m: Links, k: nat, i: nat)
    requires BucketOk(c, m, k, []) && k != i
    ensures BucketOk(c, Links(m.flink[c.Head(i) := c.Head(i)], m.blink[c.Head(i) := c.Head(i)]), k, [])
  {
    AgreeKeepsRing(m, Links(m.flink[c.Head(i) := c.Head(i)], m.blink[c.Head(i) := c.Head(i)]), RingOf(c, k, []));
  }

  lemma CountWith(contents: map<Key, Ptr>, k: Key, e: Ptr)
    ensures |contents[k := e]| == |contents| + if k in contents then 0 else 1
  {
    assert contents[k := e].Keys == contents.Keys + {k};
  }

  lemma CountWithout(contents: map<Key, Ptr>, k: Key)
    requires k in contents
    ensures |contents - {k}| == |contents| - 1
  {
    assert (contents - {k}).Keys == contents.Keys - {k};
  }

  lemma TableLength(c: Config, m: Links, buckets: seq<seq<Ptr>>)
    requires TableOk(c, m, buckets)
    ensures |buckets| == c.maxKeys
  {
  }

  lemma HoldsEntries(c: Config, m: Links, buckets: seq<seq<Ptr>>, contents: map<Key, Ptr>, n: int)
    requires Holds(c, m, buckets, contents, n)
    ensures Distinct(Flatten(buckets))
    ensures forall p :: p in Flatten(buckets) <==> p in contents.Values
    ensures forall k :: k in contents ==> c.keyAt(contents[k]) == k
    ensures contents == map[] ==> n == 0
  {
    FlattenIsContents(c, m, buckets, contents);
    KeysMatch(c, buckets, contents);
  }

  lemma HoldsProper(c: Config, m: Links, buckets: seq<seq<Ptr>>, contents: map<Key, Ptr>, n: int)
    requires Holds(c, m, buckets, contents, n)
    ensures Proper(c)
  {
  }

  lemma InsertedAround(s: seq<Ptr>, x: nat, e: Ptr)
    requires x + 1 < |s|
    ensures WithInserted(s, x + 2, e)[x + 1] == s[x + 1] && |WithInserted(s, x + 2, e)| == |s| + 1
  {
  }

  lemma TableRing(c: Config, m: Links, buckets: seq<seq<Ptr>>, i: nat)
    requires TableOk(c, m, buckets) && i < |buckets|
    ensures Ring(m, RingOf(c, i, buckets[i]))
  {
    assert BucketOk(c, m, i, buckets[i]);
  }

  /** One step of the iterator inside a bucket. */
  lemma StepInBucket(c: Config, m: Links, buckets: seq<seq<Ptr>>, keyIndex: nat, current: Ptr, p: nat, pending: seq<Ptr>)
    requires Proper(c) && TableOk(c, m, buckets) && At(c, buckets, keyIndex, current, p, pending)
    ensures current == c.Head(keyIndex) <==> p == |buckets[keyIndex]|
    ensures current != c.Head(keyIndex) ==>
      && pending != [] && pending[0] == current && current != NULL && current in m.flink
      && At(c, buckets, keyIndex, m.flink[current], p + 1, pending[1..])
  {
    hide Ring, Ascending;
    var b := buckets[keyIndex];
    assert BucketOk(c, m, keyIndex, b);
    if p < |b| {
      assert Belongs(c, keyIndex, b[p]);
      RingStep(m, RingOf(c, keyIndex, b), p + 1);
      assert b[p..] == [b[p]] + b[p + 1..];
      assert pending[1..] == b[p + 1..] + Flatten(buckets[keyIndex + 1..]);
    }
  }

  lemma RingStep(m: Links, s: seq<Ptr>, i: nat)
    requires Ring(m, s) && i < |s|
    ensures s[i] in m.flink && m.flink[s[i]] == After(s, i)
  {
    assert LinkedAt(m, s, i);
  }

  /** Nothing is pending in a bucket whose end is reached, so the next bucket starts what is left. */
  lemma StepToNextBucket(c: Config, m: Links, buckets: seq<seq<Ptr>>, keyIndex: nat, current: Ptr, pending: seq<Ptr>)
    requires Proper(c) && TableOk(c, m, buckets) && keyIndex < |buckets|
    requires At(c, buckets, keyIndex, current, |buckets[keyIndex]|, pending)
    ensures keyIndex + 1 == |buckets| ==> pending == []
    ensures keyIndex + 1 < |buckets| ==> pending == Flatten(buckets[keyIndex + 1..])
  {
  }

  lemma StartOfBucket(c: Config, m: Links, buckets: seq<seq<Ptr>>, keyIndex: nat, pending: seq<Ptr>)
    requires TableOk(c, m, buckets) && keyIndex < |buckets| && pending == Flatten(buckets[keyIndex..])
    ensures c.Head(keyIndex) in m.flink
    ensures At(c, buckets, keyIndex, m.flink[c.Head(keyIndex)], 0, pending)
  {
    hide Ring, Ascending;
    assert BucketOk(c, m, keyIndex, buckets[keyIndex]);
    RingStep(m, RingOf(c, keyIndex, buckets[keyIndex]), 0);
    assert buckets[keyIndex..][1..] == buckets[keyIndex + 1..];
  }

  // ---------------------------------------------------------------- removal

  lemma RemoveKeepsTable(c: Config, m: Links, buckets: seq<seq<Ptr>>, i: nat, x: nat)
    requires Proper(c) && TableOk(c, m, buckets) && i < |buckets| && x < |buckets[i]|
    ensures buckets[i][x] in m.flink && buckets[i][x] in m.blink
    ensures TableOk(c, Unlink(m, buckets[i][x]), buckets[i := Without(buckets[i], x)])
  {
    var b := buckets[i];
    var s, e, b' := RingOf(c, i, b), b[x], Without(b, x);
    assert BucketOk(c, m, i, b);
    assert s[x + 1] == e && e in s;
    UnlinkKeepsRing(m, s, x + 1);
    WithoutIsAscending(c, b, x);
    hide Ring, Ascending, Agree, Unlink, Belongs;
    assert Without(s, x + 1) == RingOf(c, i, b');
    EntryMapped(m, s, x + 1);
    forall k | 0 <= k < |buckets| && k != i
      ensures e !in RingOf(c, k, buckets[k])
    {
      RingsApart(c, m, buckets, i, k);
    }
    forall p | p in b'
      ensures Belongs(c, i, p)
    {
      WithoutMembers(c, b, x, p);
    }
    forall p | p !in s && p != e
      ensures Agree(m, Unlink(m, e), [p])
    {
    }
    OtherBucketsStay(c, m, Unlink(m, e), buckets, i, b', e);
  }

  /** What happens to the words of an entry that is in no bucket does not matter. */
  lemma ScribbleKeepsTable(c: Config, m: Links, buckets: seq<seq<Ptr>>, e: Ptr, f: Ptr, b: Ptr)
    requires TableOk(c, m, buckets)
    requires forall k :: 0 <= k < |buckets| ==> e !in RingOf(c, k, buckets[k])
    ensures TableOk(c, Links(m.flink[e := f], m.blink[e := b]), buckets)
  {
    var m' := Links(m.flink[e := f], m.blink[e := b]);
    hide Ring, Ascending;
    forall k | 0 <= k < |buckets|
      ensures BucketOk(c, m', k, buckets[k])
    {
      assert BucketOk(c, m, k, buckets[k]);
      AgreeKeepsRing(m, m', RingOf(c, k, buckets[k]));
    }
  }

  /** Where a stored entry is. */
  lemma Find(c: Config, m: Links, buckets: seq<seq<Ptr>>, contents: map<Key, Ptr>, e: Ptr) returns (i: nat, x: nat)
    requires Proper(c) && TableOk(c, m, buckets) && Represents(c, buckets, contents) && e in contents.Values
    ensures i < |buckets| && x < |buckets[i]| && buckets[i][x] == e
    ensures e != NULL && !c.IsHead(e) && Maps(contents, c.keyAt(e), e)
  {
    var k :| k in contents && contents[k] == e;
    assert Stored(c, buckets, k, e);
    i := c.hash(k);
    x :| 0 <= x < |buckets[i]| && buckets[i][x] == e;
    assert BucketOk(c, m, i, buckets[i]) && Belongs(c, i, e);
  }

  lemma KeysMatch(c: Config, buckets: seq<seq<Ptr>>, contents: map<Key, Ptr>)
    requires Represents(c, buckets, contents)
    ensures forall k :: k in contents ==> c.keyAt(contents[k]) == k
  {
    forall k | k in contents
      ensures c.keyAt(contents[k]) == k
    {
      assert Stored(c, buckets, k, contents[k]);
    }
  }

  lemma RemovedIsGone(c: Config, buckets: seq<seq<Ptr>>, contents: map<Key, Ptr>, e: Ptr)
    requires Represents(c, buckets, contents) && c.keyAt(e) !in contents
    ensures e !in contents.Values
  {
    KeysMatch(c, buckets, contents);
  }

  /** What a map keeps when the entries of `gone` are removed from it. */
  ghost predicate KeptOf(before: map<Key, Ptr>, gone: Ptr -> bool, visited: seq<Ptr>, after: map<Key, Ptr>) {
    && (forall k :: k in after ==> Maps(before, k, after[k]) && !(after[k] in visited && gone(after[k])))
    && (forall k :: k in before ==> (before[k] in visited && gone(before[k])) || Maps(after, k, before[k]))
  }

  lemma KeepVisiting(before: map<Key, Ptr>, gone: Ptr -> bool, visited: seq<Ptr>, after: map<Key, Ptr>, k: Key, e: Ptr)
    requires KeptOf(before, gone, visited, after) && e !in visited
    requires Maps(after, k, e)
    requires forall j :: j in after && j != k ==> after[j] != e
    ensures KeptOf(before, gone, visited + [e], if gone(e) then after - {k} else after)
  {
    var after' := if gone(e) then after - {k} else after;
    forall j | j in before
      ensures (before[j] in visited + [e] && gone(before[j])) || Maps(after', j, before[j])
    {
      if !(before[j] in visited && gone(before[j])) {
        assert Maps(after, j, before[j]);
      }
    }
  }

  lemma KeptStart(before: map<Key, Ptr>, gone: Ptr -> bool)
    ensures KeptOf(before, gone, [], before)
  {
  }

  lemma KeptRest(before: map<Key, Ptr>, gone: Ptr -> bool, visited: seq<Ptr>, after: map<Key, Ptr>)
    requires forall p :: p in before.Values ==> p in visited
    requires KeptOf(before, gone, visited, after)
    ensures after == map k | k in before && !gone(before[k]) :: before[k]
  {
    forall k | k in before
      ensures k in after <==> !gone(before[k])
    {
      assert before[k] in before.Values;
    }
  }

  /** The entry just returned is still in the table, and is not pending any more. */
  lemma PendingIsKept(before: map<Key, Ptr>, gone: Ptr -> bool, visited: seq<Ptr>, e: Ptr, pending: seq<Ptr>,
                      after: map<Key, Ptr>)
    requires KeptOf(before, gone, visited, after)
    requires Distinct(visited + [e] + pending)
    requires e in before.Values
    ensures e in after.Values && e !in visited && e !in pending
  {
    var all := visited + [e] + pending;
    forall i | 0 <= i < |visited|
      ensures visited[i] != e
    {
      assert all[i] == visited[i] && all[|visited|] == e;
    }
    forall i | 0 <= i < |pending|
      ensures pending[i] != e
    {
      assert all[|visited| + 1 + i] == pending[i] && all[|visited|] == e;
    }
    var k :| k in before && before[k] == e;
    assert Maps(after, k, e);
  }

  // ---------------------------------------------------------------- whole operations on values

  /** The table's representation invariant. */
  ghost predicate Holds(c: Config, m: Links, buckets: seq<seq<Ptr>>, contents: map<Key, Ptr>, n: int) {
    && Proper(c)
    && TableOk(c, m, buckets)
    && Represents(c, buckets, contents)
    && n == |contents| % DWORD_RANGE
  }

  lemma InsertHolds(c: Config, m: Links, buckets: seq<seq<Ptr>>, contents: map<Key, Ptr>, n: int, e: Ptr, x: nat, found: bool)
    requires Holds(c, m, buckets, contents, n)
    requires e != NULL && !c.IsHead(e) && e !in contents.Values
    requires c.hash(c.keyAt(e)) < |buckets| && Placed(c, buckets[c.hash(c.keyAt(e))], c.keyAt(e), x, found)
    ensures var h := c.hash(c.keyAt(e)); var b := buckets[h]; var s := RingOf(c, h, b);
      && x < |s| && (found ==> x + 1 < |s| && s[x + 1] == b[x]) && Ring(m, s) && e !in s
      && EntriesIn(m, s)
      && Holds(c, WordsWith(m, s, x, found, e), buckets[h := BucketWith(b, x, found, e)], contents[c.keyAt(e) := e],
               if found then n else (n + 1) % DWORD_RANGE)
      && (found <==> c.keyAt(e) in contents) && (found ==> contents[c.keyAt(e)] == b[x])
  {
    hide BucketWith, LittleEndian, Config.Order, Config.IsHead, Ring, TableOk, Represents, InsertAfter, Unlink;
    var h := c.hash(c.keyAt(e));
    assert x <= |buckets[h]| && (found ==> x < |buckets[h]|);
    hide Placed;
    AbsentFromTable(c, m, buckets, contents, e);
    FoundIffPresent(c, buckets, contents, c.keyAt(e), x, found);
    InsertRepresents(c, m, buckets, contents, e, x, found);
    InsertKeepsTable(c, m, buckets, e, x, found);
    TableRing(c, m, buckets, h);
    EntriesMapped(m, RingOf(c, h, buckets[h]));
    CountWith(contents, c.keyAt(e), e);
  }

  ghost predicate EntriesIn(m: Links, s: seq<Ptr>) {
    forall i :: 0 <= i < |s| ==> s[i] in m.flink && s[i] in m.blink
  }

  lemma EntriesMapped(m: Links, s: seq<Ptr>)
    requires Ring(m, s)
    ensures EntriesIn(m, s)
  {
  }

  lemma RemoveHolds(c: Config, m: Links, buckets: seq<seq<Ptr>>, contents: map<Key, Ptr>, n: int, e: Ptr) returns (i: nat, x: nat)
    requires Holds(c, m, buckets, contents, n) && e in contents.Values
    ensures i < |buckets| && x < |buckets[i]| && buckets[i][x] == e
    ensures e in m.flink && e in m.blink && Ring(m, RingOf(c, i, buckets[i]))
    ensures Maps(contents, c.keyAt(e), e)
    ensures Holds(c, Unlink(m, e), buckets[i := Without(buckets[i], x)], contents - {c.keyAt(e)}, (n - 1) % DWORD_RANGE)
    ensures e != NULL && !c.IsHead(e) && e !in (contents - {c.keyAt(e)}).Values
  {
    hide LittleEndian, Config.Order, Config.IsHead, Ring, TableOk, Represents, Unlink, Without;
    i, x := Find(c, m, buckets, contents, e);
    RemoveRepresents(c, m, buckets, contents, i, x);
    RemoveKeepsTable(c, m, buckets, i, x);
    TableRing(c, m, buckets, i);
    CountWithout(contents, c.keyAt(e));
    RemovedIsGone(c, buckets[i := Without(buckets[i], x)], contents - {c.keyAt(e)}, e);
  }

  lemma ScribbleHolds(c: Config, m: Links, buckets: seq<seq<Ptr>>, contents: map<Key, Ptr>, n: int, e: Ptr, f: Ptr, b: Ptr)
    requires Holds(c, m, buckets, contents, n)
    requires e != NULL && !c.IsHead(e) && e !in contents.Values
    ensures Holds(c, Links(m.flink[e := f], m.blink[e := b]), buckets, contents, n)
  {
    hide LittleEndian, Config.Order, Config.IsHead, Ring, TableOk, Represents;
    AbsentFromTable(c, m, buckets, contents, e);
    ScribbleKeepsTable(c, m, buckets, e, f, b);
  }

  // ---------------------------------------------------------------- the table in memory

  class Table {
    const c: Config
    const mem: ListMemory
    var numberOfElements: int
    ghost var buckets: seq<seq<Ptr>>
    ghost var contents: map<Key, Ptr>

    ghost predicate Valid()
      reads this, mem
    {
      Holds(c, mem.Words(), buckets, contents, numberOfElements)
    }

    /** HashTablePreinit and HashTableInit: every head is made an empty list. */
    constructor (config: Config)
      requires Proper(config)
      ensures Valid() && fresh(mem) && c == config && contents == map[]
    {
      c := config;
      numberOfElements := 0;
      mem := new ListMemory();
      buckets, contents := EmptyBuckets(config.maxKeys), map[];
      new;
      InitializeHeads();
      TotalEmpty(c.maxKeys);
    }

    method InitializeHeads()
      requires Proper(c)
      modifies mem
      ensures TableOk(c, mem.Words(), EmptyBuckets(c.maxKeys))
    {
      hide BucketOk, Agree, Ring;
      var i := 0;
      while i < c.maxKeys
        invariant i <= c.maxKeys
        invariant forall k :: 0 <= k < i ==> BucketOk(c, mem.Words(), k, [])
      {
        ghost var before := mem.Words();
        mem.InitializeListHead(c.Head(i));
        forall k | 0 <= k < i
          ensures BucketOk(c, mem.Words(), k, [])
        {
          EmptyBucketStays(c, before, k, i);
        }
        EmptyBucketOk(c, before, i);
        i := i + 1;
      }
    }

    method Size() returns (n: int)
      requires Valid()
      ensures n == |contents| % DWORD_RANGE
    {
      n := numberOfElements;
    }

    /** Looks for the key in its bucket. The placeholder is the entry itself if it is there,
        else the entry (or head) a new one would have to follow. */
    method SearchKeyInBucket(key: Key) returns (found: bool, placeholder: Ptr, ghost x: nat)
      requires Valid() && |key| == c.keySize
      ensures found <==> key in contents
      ensures found ==> placeholder == contents[key]
      ensures c.hash(key) < |buckets|
      ensures var b := buckets[c.hash(key)];
        && Placed(c, b, key, x, found)
        && x <= |b| && (found ==> x < |b|)
        && placeholder == RingOf(c, c.hash(key), b)[if found then x + 1 else x]
    {
      hide StopIndex, Comparison, Placed, Compare, LittleEndian, Ascending, Represents;
      ghost var h := c.hash(key);
      ghost var b := buckets[h];
      ghost var s := RingOf(c, h, b);
      assert BucketOk(c, mem.Words(), h, b);
      var lastEntry, lastResult;
      found, lastEntry, lastResult := mem.ListSearchForElement(c.Head(c.hash(key)), true, Comparison(c, key), s);
      ghost var i := StopIndex(s, true, Comparison(c, key), 1);
      StopIndexPlaces(c, h, b, key);
      StopIndexBounds(s, Comparison(c, key));
      x := i - 1;
      placeholder := lastEntry;
      if lastResult > 0 {
        assert i < |s|;
        assert LinkedAt(mem.Words(), s, i);
        placeholder := mem.blink[lastEntry];
      }
      FoundIffPresent(c, buckets, contents, key, x, found);
    }

    method Insert(element: Ptr) returns (previous: Ptr)
      requires Valid() && element != NULL && !c.IsHead(element) && element !in contents.Values
      modifies this, mem
      ensures Valid()
      ensures contents == old(contents)[c.keyAt(element) := element]
      ensures previous == if c.keyAt(element) in old(contents) then old(contents)[c.keyAt(element)] else NULL
    {
      hide BucketWith, Placed, Config.IsHead, Ring, Holds, InsertAfter, Unlink;
      var key := c.keyAt(element);
      ghost var h, m := c.hash(key), mem.Words();
      var found, place;
      ghost var x;
      HoldsProper(c, m, buckets, contents, numberOfElements);
      found, place, x := SearchKeyInBucket(key);
      ghost var b := buckets[h];
      ghost var s := RingOf(c, h, b);
      InsertHolds(c, m, buckets, contents, numberOfElements, element, x, found);
      mem.InsertHeadList(place, element, s, if found then x + 1 else x);
      if found {
        InsertedAround(s, x, element);
        var _ := mem.RemoveEntryList(place, WithInserted(s, x + 2, element), x + 1);
        previous := place;
      } else {
        numberOfElements := (numberOfElements + 1) % DWORD_RANGE;
        previous := NULL;
      }
      assert mem.Words() == WordsWith(m, s, x, found, element);
      buckets := buckets[h := BucketWith(b, x, found, element)];
      contents := contents[key := element];
    }

    method Lookup(key: Key) returns (r: Ptr)
      requires Valid() && |key| == c.keySize
      ensures r == if key in contents then contents[key] else NULL
      ensures r != NULL <==> key in contents
    {
      hide Placed, LittleEndian, Config.Order, Ring, TableOk, Represents;
      var found, place;
      ghost var x;
      found, place, x := SearchKeyInBucket(key);
      if key in contents {
        ghost var i, y := Find(c, mem.Words(), buckets, contents, contents[key]);
      }
      r := if found then place else NULL;
    }

    /** Unlinks an entry that is in the table; it may be inserted again afterwards. */
    method RemoveEntry(element: Ptr) returns (ghost i: nat, ghost x: nat)
      requires Valid() && element in contents.Values
      modifies this, mem
      ensures Valid() && contents == old(contents) - {c.keyAt(element)}
      ensures i < |old(buckets)| && x < |old(buckets)[i]| && old(buckets)[i][x] == element
      ensures buckets == old(buckets)[i := Without(old(buckets)[i], x)]
      ensures Maps(old(contents), c.keyAt(element), element)
      ensures element != NULL && !c.IsHead(element) && element !in contents.Values
    {
      hide Config.IsHead, Ring, Holds, Unlink, Without;
      ghost var m := mem.Words();
      i, x := RemoveHolds(c, m, buckets, contents, numberOfElements, element);
      var _ := mem.RemoveEntryList(element, RingOf(c, i, buckets[i]), x + 1);
      numberOfElements := (numberOfElements - 1) % DWORD_RANGE;
      buckets := buckets[i := Without(buckets[i], x)];
      contents := contents - {c.keyAt(element)};
    }

    method Remove(key: Key) returns (r: Ptr)
      requires Valid() && |key| == c.keySize
      modifies this, mem
      ensures Valid() && contents == old(contents) - {key}
      ensures r == if key in old(contents) then old(contents)[key] else NULL
    {
      r := Lookup(key);
      if r != NULL {
        ghost var h := contents;
        ghost var i, x := RemoveEntry(r);
        KeysMatch(c, old(buckets), h);
      } else {
        assert contents - {key} == contents;
      }
    }

    /** Removes an entry and hands it to the free function, which may do with its words what it
        likes. */
    method RemoveAndFree(element: Ptr) returns (ghost i: nat, ghost x: nat)
      requires Valid() && element in contents.Values
      modifies this, mem
      ensures Valid() && contents == old(contents) - {c.keyAt(element)}
      ensures i < |old(buckets)| && x < |old(buckets)[i]| && old(buckets)[i][x] == element
      ensures buckets == old(buckets)[i := Without(old(buckets)[i], x)]
      ensures Maps(old(contents), c.keyAt(element), element)
    {
      hide Holds, Config.IsHead, Without;
      i, x := RemoveEntry(element);
      var f: Ptr, b: Ptr := *, *;
      ScribbleHolds(c, mem.Words(), buckets, contents, numberOfElements, element, f, b);
      mem.Scribble(element, f, b);
    }

    /** HashTableClear. `freed` lists the calls of the free function in order. */
    method Clear() returns (freed: seq<Ptr>)
      requires Valid()
      modifies this, mem
      ensures Valid() && contents == map[] && numberOfElements == 0
      ensures freed == Flatten(old(buckets)) && Distinct(freed)
      ensures forall p :: p in freed <==> p in old(contents).Values
    {
      hide Config.IsHead, Config.Head, Config.Order, Holds, Flatten, Iterating, KeptOf, Without, Distinct, LittleEndian, Total;
      HoldsEntries(c, mem.Words(), buckets, contents, numberOfElements);
      ghost var all, gone, before := Flatten(buckets), (p: Ptr) => true, contents;
      KeptStart(before, gone);
      var it := new HashIterator(this);
      freed := [];
      var entry := it.Next();
      while entry != NULL
        invariant Valid() && it.Valid() && it.table == this
        invariant freed + (if entry != NULL then [entry] else []) + it.pending == all
        invariant entry == NULL ==> it.pending == []
        invariant KeptOf(before, gone, freed, contents)
        decreases |it.pending|, entry != NULL
      {
        label L:
        PendingIsKept(before, gone, freed, entry, it.pending, contents);
        HoldsEntries(c, mem.Words(), buckets, contents, numberOfElements);
        ghost var i, x := RemoveAndFree(entry);
        RemoveKeepsIterating(c, old@L(buckets), it.keyIndex, it.listHead, it.currentEntry, it.pending, i, x);
        KeepVisiting(before, gone, freed, old@L(contents), c.keyAt(entry), entry);
        freed := freed + [entry];
        entry := it.Next();
      }
      KeptRest(before, gone, freed, contents);
      HoldsEntries(c, mem.Words(), buckets, contents, numberOfElements);
    }
  }

  /** HASH_ITERATOR: the bucket, and the list iterator inside it. */
  class HashIterator {
    const table: Table
    var keyIndex: nat
    var listHead: Ptr
    var currentEntry: Ptr
    ghost var pending: seq<Ptr>

    ghost predicate Valid()
      reads this, table
    {
      Iterating(table.c, table.buckets, keyIndex, listHead, currentEntry, pending)
    }

    constructor (t: Table)
      requires t.Valid()
      ensures Valid() && table == t && pending == Flatten(t.buckets)
    {
      assert t.buckets[0..] == t.buckets;
      StartOfBucket(t.c, t.mem.Words(), t.buckets, 0, Flatten(t.buckets));
      table := t;
      keyIndex := 0;
      listHead := t.c.Head(0);
      currentEntry := t.mem.flink[t.c.Head(0)];
      pending := Flatten(t.buckets);
    }

    /** Gives the next pending entry, or NULL once nothing is pending. */
    method Next() returns (r: Ptr)
      requires Valid() && table.Valid()
      modifies this
      ensures Valid()
      ensures r == NULL <==> old(pending) == []
      ensures old(pending) == (if r == NULL then [] else [r]) + pending
    {
      hide LittleEndian, Config.Order, Config.IsHead, Ring, TableOk, Represents, Flatten, At, Belongs;
      ghost var c, buckets, m := table.c, table.buckets, table.mem.Words();
      TableLength(c, m, buckets);
      r := NULL;
      while keyIndex < table.c.maxKeys
        invariant Valid() && pending == old(pending)
        decreases table.c.maxKeys - keyIndex
      {
        ghost var p: nat :| At(c, buckets, keyIndex, currentEntry, p, pending);
        StepInBucket(c, m, buckets, keyIndex, currentEntry, p, pending);
        if currentEntry != listHead {
          r := currentEntry;
          currentEntry := table.mem.flink[currentEntry];
          pending := pending[1..];
          return;
        }
        StepToNextBucket(c, m, buckets, keyIndex, currentEntry, pending);
        keyIndex := keyIndex + 1;
        if keyIndex < table.c.maxKeys {
          StartOfBucket(c, m, buckets, keyIndex, pending);
          listHead := table.c.Head(keyIndex);
          currentEntry := table.mem.flink[listHead];
        }
      }
    }
  }

  /** Walking the table and removing just returned entries, whichever ones: every entry of the
      table is still returned exactly once, and exactly the chosen ones are gone. */
  method RemoveWhere(table: Table, drop: Ptr -> bool) returns (visited: seq<Ptr>)
    requires table.Valid()
    modifies table, table.mem
    ensures table.Valid()
    ensures visited == Flatten(old(table.buckets)) && Distinct(visited)
    ensures forall p :: p in visited <==> p in old(table.contents).Values
    ensures table.contents == map k | k in old(table.contents) && !drop(old(table.contents)[k]) :: old(table.contents)[k]
  {
    hide Config.IsHead, Holds, Flatten, Iterating, KeptOf, Without, Distinct;
    HoldsEntries(table.c, table.mem.Words(), table.buckets, table.contents, table.numberOfElements);
    ghost var all, before := Flatten(table.buckets), table.contents;
    KeptStart(before, drop);
    var it := new HashIterator(table);
    visited := [];
    var entry := it.Next();
    while entry != NULL
      invariant table.Valid() && it.Valid() && it.table == table
      invariant visited + (if entry != NULL then [entry] else []) + it.pending == all
      invariant entry == NULL ==> it.pending == []
      invariant KeptOf(before, drop, visited, table.contents)
      decreases |it.pending|, entry != NULL
    {
      label L:
      PendingIsKept(before, drop, visited, entry, it.pending, table.contents);
      HoldsEntries(table.c, table.mem.Words(), table.buckets, table.contents, table.numberOfElements);
      KeepVisiting(before, drop, visited, table.contents, table.c.keyAt(entry), entry);
      if drop(entry) {
        ghost var i, x := table.RemoveEntry(entry);
        RemoveKeepsIterating(table.c, old@L(table.buckets), it.keyIndex, it.listHead, it.currentEntry, it.pending, i, x);
      }
      visited := visited + [entry];
      entry := it.Next();
    }
    KeptRest(before, drop, visited, table.contents);
  }
}
