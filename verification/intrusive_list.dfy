/** Circular doubly linked lists whose LIST_ENTRY nodes are embedded in other records.

    A LIST_ENTRY is two pointer-sized words at some address, so the memory holding
    list entries is modelled by two maps from addresses to addresses: what the Flink word
    and what the Blink word at that address hold. `Ring` says that a sequence of addresses,
    list head first, is linked into one circle in both directions.
 */
module IntrusiveList {
  import opened Counting

  type Ptr = int

  /** The words of every LIST_ENTRY, as a value. */
  datatype Links = Links(flink: map<Ptr, Ptr>, blink: map<Ptr, Ptr>)

  /** The node after (before) position `i` on the circle. */
  function After(s: seq<Ptr>, i: nat): Ptr
    requires i < |s|
  {
    if i + 1 < |s| then s[i + 1] else s[0]
  }

  function Before(s: seq<Ptr>, i: nat): Ptr
    requires i < |s|
  {
    if i > 0 then s[i - 1] else s[|s| - 1]
  }

  /** The two words of the entry at position `i` point at its neighbours. */
  predicate LinkedAt(m: Links, s: seq<Ptr>, i: nat)
    requires i < |s|
  {
    && s[i] in m.flink && s[i] in m.blink
    && m.flink[s[i]] == After(s, i) && m.blink[s[i]] == Before(s, i)
  }

  /** `s` is a valid list: `s[0]` is the head, `s[1..]` the elements in order. */
  ghost predicate Ring(m: Links, s: seq<Ptr>) {
    && |s| >= 1
    && Distinct(s)
    && (forall i :: 0 <= i < |s| ==> s[i] in m.flink && s[i] in m.blink)
    && (forall i :: 0 <= i < |s| ==> LinkedAt(m, s, i))
  }

  /** The words at the addresses of `s` are the same in both memories. */
  ghost predicate Agree(m: Links, m': Links, s: seq<Ptr>) {
    forall p :: p in s && p in m.flink && p in m.blink ==>
      p in m'.flink && p in m'.blink && m'.flink[p] == m.flink[p] && m'.blink[p] == m.blink[p]
  }

  /** What the four writes of InsertHeadList do: `e` goes right behind `p`. */
  function InsertAfter(m: Links, p: Ptr, e: Ptr): Links
    requires p in m.flink
  {
    var flink := m.flink[p];
    Links(m.flink[e := flink][p := e], m.blink[e := p][flink := e])
  }

  /** What the four writes of InsertTailList do: `e` goes right before `p`. */
  function InsertBefore(m: Links, p: Ptr, e: Ptr): Links
    requires p in m.blink
  {
    var blink := m.blink[p];
    Links(m.flink[e := p][blink := e], m.blink[e := blink][p := e])
  }

  /** What the two writes of RemoveEntryList do; the words of `e` itself stay as they were. */
  function Unlink(m: Links, e: Ptr): Links
    requires e in m.flink && e in m.blink
  {
    Links(m.flink[m.blink[e] := m.flink[e]], m.blink[m.flink[e] := m.blink[e]])
  }

  function WithInserted(s: seq<Ptr>, i: nat, e: Ptr): (r: seq<Ptr>)
    requires i <= |s|
  {
    s[..i] + [e] + s[i..]
  }

  function Without(s: seq<Ptr>, i: nat): (r: seq<Ptr>)
    requires i < |s|
  {
    s[..i] + s[i + 1..]
  }

  lemma InsertKeepsDistinct(s: seq<Ptr>, i: nat, e: Ptr)
    requires Distinct(s) && i <= |s| && e !in s
    ensures Distinct(WithInserted(s, i, e))
  {
    var s' := WithInserted(s, i, e);
    forall j, k | 0 <= j < k < |s'|
      ensures s'[j] != s'[k]
    {
      var j', k' := if j < i then j else j - 1, if k < i then k else k - 1;
      assert j != i ==> s'[j] == s[j'];
      assert k != i ==> s'[k] == s[k'];
    }
  }

  lemma InsertedLinkedAt(m: Links, s: seq<Ptr>, i: nat, e: Ptr, j: nat)
    requires Ring(m, s) && i < |s| && e !in s && j <= |s|
    ensures LinkedAt(InsertAfter(m, s[i], e), WithInserted(s, i + 1, e), j)
  {
    var m' := InsertAfter(m, s[i], e);
    var s' := WithInserted(s, i + 1, e);
    var next := if i + 1 < |s| then i + 1 else 0;
    assert LinkedAt(m, s, i);
    assert m.flink[s[i]] == s[next];
    if j != i + 1 {
      var k := if j <= i then j else j - 1;
      assert s'[j] == s[k];
      assert LinkedAt(m, s, k);
      assert k != i ==> s[k] != s[i];
      assert k != next ==> s[k] != s[next];
      assert m'.blink[s[k]] == if k == next then e else Before(s, k);
      assert m'.flink[s[k]] == if k == i then e else After(s, k);
    }
  }

  /** Inserting behind position `i` of a valid list gives a valid list with `e` at `i + 1`,
      and touches no word outside that list. */
  lemma InsertAfterKeepsRing(m: Links, s: seq<Ptr>, i: nat, e: Ptr)
    requires Ring(m, s) && i < |s| && e !in s
    ensures Ring(InsertAfter(m, s[i], e), WithInserted(s, i + 1, e))
    ensures forall t :: (forall p :: p in t ==> p !in s && p != e) ==> Agree(m, InsertAfter(m, s[i], e), t)
  {
    InsertKeepsDistinct(s, i + 1, e);
    assert LinkedAt(m, s, i);
    var m', s' := InsertAfter(m, s[i], e), WithInserted(s, i + 1, e);
    forall j | 0 <= j < |s'|
      ensures LinkedAt(m', s', j)
    {
      InsertedLinkedAt(m, s, i, e, j);
    }
  }

  /** InsertTailList at position `i` is insertion behind the position before it; for the
      head this appends to the list. */
  lemma InsertBeforeIsInsertAfter(m: Links, s: seq<Ptr>, i: nat, e: Ptr)
    requires Ring(m, s) && i < |s| && e !in s
    ensures InsertBefore(m, s[i], e) == InsertAfter(m, Before(s, i), e)
    ensures Ring(InsertBefore(m, s[i], e), WithInserted(s, if i == 0 then |s| else i, e))
  {
    var k := if i == 0 then |s| - 1 else i - 1;
    assert LinkedAt(m, s, k) && LinkedAt(m, s, i);
    assert s[k] == Before(s, i) && After(s, k) == s[i] && m.flink[s[k]] == s[i];
    if k == i {
      assert |s| == 1;
    }
    InsertAfterKeepsRing(m, s, k, e);
    assert m.flink[e := s[i]][s[k] := e] == InsertAfter(m, s[k], e).flink;
    assert m.blink[e := s[k]][s[i] := e] == InsertAfter(m, s[k], e).blink;
  }

  lemma RemoveKeepsDistinct(s: seq<Ptr>, i: nat)
    requires Distinct(s) && i < |s|
    ensures Distinct(Without(s, i)) && s[i] !in Without(s, i)
  {
    var s' := Without(s, i);
    assert forall j :: 0 <= j < |s'| ==> s'[j] == s[if j < i then j else j + 1];
  }

  lemma UnlinkedLinkedAt(m: Links, s: seq<Ptr>, i: nat, j: nat)
    requires Ring(m, s) && 1 <= i < |s| && j < |s| - 1
    ensures LinkedAt(Unlink(m, s[i]), Without(s, i), j)
  {
    var m' := Unlink(m, s[i]);
    var s' := Without(s, i);
    var next := if i + 1 < |s| then i + 1 else 0;
    var k := if j < i then j else j + 1;
    assert LinkedAt(m, s, i);
    assert m.blink[s[i]] == s[i - 1] && m.flink[s[i]] == s[next];
    assert s'[j] == s[k];
    assert LinkedAt(m, s, k);
    assert k != i - 1 ==> s[k] != s[i - 1];
    assert k != next ==> s[k] != s[next];
    assert m'.flink[s[k]] == if k == i - 1 then s[next] else After(s, k);
    assert m'.blink[s[k]] == if k == next then s[i - 1] else Before(s, k);
  }

  /** Removing position `i >= 1` of a valid list leaves a valid list without that element,
      and touches no word outside that list, nor the removed entry's own words. */
  lemma UnlinkKeepsRing(m: Links, s: seq<Ptr>, i: nat)
    requires Ring(m, s) && 1 <= i < |s|
    ensures Ring(Unlink(m, s[i]), Without(s, i))
    ensures s[i] !in Without(s, i)
    ensures forall t :: (forall p :: p in t ==> p !in s || p == s[i]) ==> Agree(m, Unlink(m, s[i]), t)
  {
    RemoveKeepsDistinct(s, i);
    forall j | 0 <= j < |s| - 1
      ensures LinkedAt(Unlink(m, s[i]), Without(s, i), j)
    {
      UnlinkedLinkedAt(m, s, i, j);
    }
    assert LinkedAt(m, s, i) && m.blink[s[i]] == s[i - 1] && m.flink[s[i]] in s;
    assert s[i] != s[i - 1] && (|s| > 1 ==> After(s, i) != s[i]);
  }

  lemma AgreeKeepsRing(m: Links, m': Links, s: seq<Ptr>)
    requires Ring(m, s) && Agree(m, m', s)
    ensures Ring(m', s)
  {
    forall i | 0 <= i < |s|
      ensures s[i] in m'.flink && s[i] in m'.blink && LinkedAt(m', s, i)
    {
      var p := s[i];
      assert p in s && LinkedAt(m, s, i);
      assert p in m.flink && p in m.blink;
    }
  }

  /** The check that debug builds make on a list entry. */
  predicate ValidateListEntry(m: Links, e: Ptr) {
    && e in m.flink && e in m.blink
    && m.flink[e] in m.blink && m.blink[m.flink[e]] == e
    && m.blink[e] in m.flink && m.flink[m.blink[e]] == e
  }

  lemma RingEntriesValidate(m: Links, s: seq<Ptr>, i: nat)
    requires Ring(m, s) && i < |s|
    ensures ValidateListEntry(m, s[i])
  {
    var next := if i + 1 < |s| then i + 1 else 0;
    var prev := if i > 0 then i - 1 else |s| - 1;
    assert LinkedAt(m, s, i) && LinkedAt(m, s, next) && LinkedAt(m, s, prev);
    assert m.flink[s[i]] == s[next] && m.blink[s[i]] == s[prev];
  }

  /** Undoing an insertion restores the words of the whole list. */
  lemma UnlinkUndoesInsert(m: Links, s: seq<Ptr>, i: nat, e: Ptr)
    requires Ring(m, s) && i < |s| && e !in s
    ensures Agree(m, Unlink(InsertAfter(m, s[i], e), e), s)
    ensures Without(WithInserted(s, i + 1, e), i + 1) == s
  {
    InsertAfterKeepsRing(m, s, i, e);
    RingEntriesValidate(m, s, i);
    assert LinkedAt(m, s, i);
  }

  /** The first position from `i` on at which a search stops, or the length. */
  function StopIndex(s: seq<Ptr>, ordered: bool, compare: Ptr -> int, i: nat): (r: nat)
    requires i <= |s|
    ensures i <= r <= |s|
    ensures forall j :: i <= j < r ==> compare(s[j]) != 0 && (ordered ==> compare(s[j]) < 0)
    ensures r < |s| ==> compare(s[r]) == 0 || (ordered && compare(s[r]) > 0)
    decreases |s| - i
  {
    if i == |s| || compare(s[i]) == 0 || (ordered && compare(s[i]) > 0) then i
    else StopIndex(s, ordered, compare, i + 1)
  }

  /** The order given by a comparison that is consistent with itself. */
  ghost predicate SortedBy(s: seq<Ptr>, compare: (Ptr, Ptr) -> int) {
    forall i, j :: 1 <= i < j < |s| ==> compare(s[i], s[j]) <= 0
  }

  ghost predicate IsOrder(compare: (Ptr, Ptr) -> int) {
    && (forall x, y :: compare(x, y) <= 0 <==> compare(y, x) >= 0)
    && (forall x, y, z :: compare(x, y) <= 0 && compare(y, z) <= 0 ==> compare(x, z) <= 0)
  }

  /** Ordered insertion keeps an ordered list ordered. */
  lemma OrderedInsertKeepsSorted(s: seq<Ptr>, i: nat, entry: Ptr, compare: (Ptr, Ptr) -> int)
    requires IsOrder(compare) && SortedBy(s, compare) && 1 <= i <= |s|
    requires forall j :: 1 <= j < i ==> compare(entry, s[j]) >= 0
    requires i < |s| ==> compare(entry, s[i]) < 0
    ensures SortedBy(WithInserted(s, i, entry), compare)
  {
    var s' := WithInserted(s, i, entry);
    forall j, k | 1 <= j < k < |s'|
      ensures compare(s'[j], s'[k]) <= 0
    {
      if j == i {
        assert s'[k] == s[k - 1];
        var x, y := s[i], s[k - 1];
        assert compare(entry, x) <= 0;
        if k - 1 > i {
          assert compare(x, y) <= 0;
          assert compare(entry, y) <= 0;
        }
      } else if k == i {
        assert s'[j] == s[j] && compare(entry, s[j]) >= 0;
        assert compare(s[j], entry) <= 0;
      } else {
        assert s'[j] == s[if j < i then j else j - 1] && s'[k] == s[if k < i then k else k - 1];
      }
    }
  }

  class ListMemory {
    var flink: map<Ptr, Ptr>
    var blink: map<Ptr, Ptr>

    function Words(): Links
      reads this
    {
      Links(flink, blink)
    }

    constructor ()
      ensures Words() == Links(map[], map[])
    {
      flink, blink := map[], map[];
    }

    method InitializeListHead(listHead: Ptr)
      modifies this
      ensures Words() == Links(old(flink)[listHead := listHead], old(blink)[listHead := listHead])
      ensures Ring(Words(), [listHead])
    {
      blink := blink[listHead := listHead];
      flink := flink[listHead := listHead];
    }

    method IsListEmpty(listHead: Ptr, ghost s: seq<Ptr>) returns (empty: bool)
      requires Ring(Words(), s) && s[0] == listHead
      ensures empty <==> |s| == 1
    {
      assert LinkedAt(Words(), s, 0);
      empty := flink[listHead] == listHead;
    }

    method RemoveEntryList(entry: Ptr, ghost s: seq<Ptr>, ghost i: nat) returns (lastOne: bool)
      requires Ring(Words(), s) && 1 <= i < |s| && s[i] == entry
      modifies this
      ensures Words() == Unlink(old(Words()), entry)
      ensures Ring(Words(), Without(s, i))
      ensures lastOne <==> |s| == 2
    {
      UnlinkKeepsRing(Words(), s, i);
      assert LinkedAt(Words(), s, i);
      var b := blink[entry];
      var f := flink[entry];
      flink := flink[b := f];
      blink := blink[f := b];
      lastOne := f == b;
    }

    method InsertHeadList(listHead: Ptr, entry: Ptr, ghost s: seq<Ptr>, ghost i: nat)
      requires Ring(Words(), s) && i < |s| && s[i] == listHead && entry !in s
      modifies this
      ensures Words() == InsertAfter(old(Words()), listHead, entry)
      ensures Ring(Words(), WithInserted(s, i + 1, entry))
    {
      InsertAfterKeepsRing(Words(), s, i, entry);
      var f := flink[listHead];
      flink := flink[entry := f];
      blink := blink[entry := listHead];
      blink := blink[f := entry];
      flink := flink[listHead := entry];
    }

    method InsertTailList(listHead: Ptr, entry: Ptr, ghost s: seq<Ptr>, ghost i: nat)
      requires Ring(Words(), s) && i < |s| && s[i] == listHead && entry !in s
      modifies this
      ensures Words() == InsertBefore(old(Words()), listHead, entry)
      ensures Ring(Words(), WithInserted(s, if i == 0 then |s| else i, entry))
    {
      InsertBeforeIsInsertAfter(Words(), s, i, entry);
      var b := blink[listHead];
      flink := flink[entry := listHead];
      blink := blink[entry := b];
      flink := flink[b := entry];
      blink := blink[listHead := entry];
    }

    /** Overwrites the words of an entry that is no longer in a list. */
    method Scribble(entry: Ptr, flinkWord: Ptr, blinkWord: Ptr)
      modifies this
      ensures Words() == Links(old(flink)[entry := flinkWord], old(blink)[entry := blinkWord])
    {
      flink := flink[entry := flinkWord];
      blink := blink[entry := blinkWord];
    }

    /** Walks the list until the comparison says equal, or larger if the list is ordered. Besides
        the answer, it gives the entry compared last (the head if there was none) and how. */
    method ListSearchForElement(listHead: Ptr, isListOrdered: bool, compare: Ptr -> int, ghost s: seq<Ptr>)
      returns (found: bool, lastEntry: Ptr, lastResult: int)
      requires Ring(Words(), s) && s[0] == listHead
      ensures var i := StopIndex(s, isListOrdered, compare, 1);
        && (found <==> i < |s| && compare(s[i]) == 0)
        && lastEntry == (if i < |s| then s[i] else s[|s| - 1])
        && lastResult == (if |s| == 1 then 0 else compare(lastEntry))
    {
      ghost var i: nat := 1;
      assert LinkedAt(Words(), s, 0);
      lastEntry, lastResult := listHead, 0;
      var curEntry := flink[listHead];
      while curEntry != listHead
        invariant 1 <= i <= |s| && curEntry == (if i < |s| then s[i] else s[0])
        invariant StopIndex(s, isListOrdered, compare, i) == StopIndex(s, isListOrdered, compare, 1)
        invariant lastEntry == s[i - 1] && lastResult == if i == 1 then 0 else compare(s[i - 1])
        decreases |s| - i
      {
        assert LinkedAt(Words(), s, i);
        lastEntry := curEntry;
        lastResult := compare(curEntry);
        if lastResult == 0 {
          return true, lastEntry, lastResult;
        }
        if isListOrdered && lastResult > 0 {
          return false, lastEntry, lastResult;
        }
        curEntry := flink[curEntry];
        i := i + 1;
      }
      found := false;
    }

    /** Inserts the entry before the first one that is larger, so behind all it does not precede. */
    method InsertOrderedList(listHead: Ptr, entry: Ptr, compare: (Ptr, Ptr) -> int, ghost s: seq<Ptr>)
      returns (ghost i: nat)
      requires Ring(Words(), s) && s[0] == listHead && entry !in s
      modifies this
      ensures 1 <= i <= |s|
      ensures forall j :: 1 <= j < i ==> compare(entry, s[j]) >= 0
      ensures i < |s| ==> compare(entry, s[i]) < 0
      ensures Ring(Words(), WithInserted(s, i, entry))
      ensures IsOrder(compare) && SortedBy(s, compare) ==> SortedBy(WithInserted(s, i, entry), compare)
    {
      i := 1;
      assert LinkedAt(Words(), s, 0);
      var currentEntry := flink[listHead];
      while currentEntry != listHead
        invariant 1 <= i <= |s| && currentEntry == (if i < |s| then s[i] else s[0])
        invariant forall j :: 1 <= j < i ==> compare(entry, s[j]) >= 0
        decreases |s| - i
      {
        assert LinkedAt(Words(), s, i);
        if compare(entry, currentEntry) < 0 {
          break;
        }
        currentEntry := flink[currentEntry];
        i := i + 1;
      }
      InsertTailList(currentEntry, entry, s, if i < |s| then i else 0);
      if IsOrder(compare) && SortedBy(s, compare) {
        OrderedInsertKeepsSorted(s, i, entry, compare);
      }
    }
  }
}
