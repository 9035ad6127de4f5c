/** Sums over a sequence and how they change with it, and sequences without repetition. */
module Counting {

  ghost predicate Distinct<T>(s: seq<T>) {
    forall i, j :: 0 <= i < j < |s| ==> s[i] != s[j]
  }

  function Total<T>(s: seq<T>, w: T -> nat): nat {
    if s == [] then 0 else Total(s[..|s| - 1], w) + w(s[|s| - 1])
  }

  lemma {:induction false} TotalUpdate<T>(s: seq<T>, w: T -> nat, c: nat, x: T)
    requires c < |s|
    ensures Total(s[c := x], w) + w(s[c]) == Total(s, w) + w(x)
  {
    var t := s[c := x];
    if c < |s| - 1 {
      TotalUpdate(s[..|s| - 1], w, c, x);
      assert t[..|t| - 1] == s[..|s| - 1][c := x];
    } else {
      assert t[..|t| - 1] == s[..|s| - 1];
    }
  }

  lemma {:induction false} TotalAppend<T>(xs: seq<T>, ys: seq<T>, w: T -> nat)
    ensures Total(xs + ys, w) == Total(xs, w) + Total(ys, w)
  {
    if ys == [] {
      assert xs + ys == xs;
    } else {
      TotalAppend(xs, ys[..|ys| - 1], w);
      assert (xs + ys)[..|xs + ys| - 1] == xs + ys[..|ys| - 1];
    }
  }

  lemma TotalAround<T>(xs: seq<T>, x: T, ys: seq<T>, w: T -> nat)
    ensures Total(xs + [x] + ys, w) == Total(xs + ys, w) + w(x)
  {
    TotalAppend(xs, [x], w);
    TotalAppend(xs + [x], ys, w);
    TotalAppend(xs, ys, w);
    assert [x][..0] == [];
  }

  /** With weights 0 and 1, a member of weight 1 makes the sum positive, and every member of
      weight 0 keeps it below the length. */
  lemma {:induction false} TotalBounds<T>(s: seq<T>, w: T -> nat, c: nat)
    requires c < |s| && forall x :: w(x) <= 1
    ensures w(s[c]) <= Total(s, w) <= |s| - 1 + w(s[c])
  {
    TotalAtMostLength(s[..|s| - 1], w);
    if c < |s| - 1 {
      TotalBounds(s[..|s| - 1], w, c);
    }
  }

  lemma {:induction false} TotalAtMostLength<T>(s: seq<T>, w: T -> nat)
    requires forall x :: w(x) <= 1
    ensures Total(s, w) <= |s|
  {
    if s != [] {
      TotalAtMostLength(s[..|s| - 1], w);
    }
  }

  /** Two different members of weight 1 make the sum at least 2. */
  lemma {:induction false} TotalOfTwo<T>(s: seq<T>, w: T -> nat, c: nat, d: nat)
    requires c < |s| && d < |s| && c != d
    ensures Total(s, w) >= w(s[c]) + w(s[d])
  {
    if c < |s| - 1 && d < |s| - 1 {
      TotalOfTwo(s[..|s| - 1], w, c, d);
    } else {
      TotalOfOne(s[..|s| - 1], w, if c < |s| - 1 then c else d);
    }
  }

  lemma {:induction false} TotalOfOne<T>(s: seq<T>, w: T -> nat, c: nat)
    requires c < |s|
    ensures Total(s, w) >= w(s[c])
  {
    if c < |s| - 1 {
      TotalOfOne(s[..|s| - 1], w, c);
    }
  }

  /** A positive sum has a member with positive weight. */
  lemma {:induction false} PositiveMember<T>(s: seq<T>, w: T -> nat) returns (c: nat)
    requires Total(s, w) > 0
    ensures c < |s| && w(s[c]) > 0
  {
    if w(s[|s| - 1]) > 0 {
      c := |s| - 1;
    } else {
      c := PositiveMember(s[..|s| - 1], w);
    }
  }

  lemma {:induction false} TotalZero<T>(s: seq<T>, w: T -> nat)
    requires forall c :: 0 <= c < |s| ==> w(s[c]) == 0
    ensures Total(s, w) == 0
  {
    if s != [] {
      TotalZero(s[..|s| - 1], w);
    }
  }

  /** A sequence without repetition is no longer than the set it is taken from. */
  lemma {:induction false} DistinctIsShort<T>(s: seq<T>, within: set<T>)
    requires Distinct(s) && forall i :: 0 <= i < |s| ==> s[i] in within
    ensures |s| <= |within|
    decreases |s|
  {
    if s != [] {
      DistinctIsShort(s[..|s| - 1], within - {s[|s| - 1]});
    }
  }
}
