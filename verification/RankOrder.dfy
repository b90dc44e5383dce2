/**
 * Restoring subscription order in place (internal/filter/index.go).
 * None of it looks inside an ID, so it is written for any type of IDs.
 */
module RankOrder {

  /** Every ID of the buffer has a rank. */
  predicate Ranked<T(==,!new)>(ids: seq<T>, ranks: map<T, nat>) {
    forall x | x in ids :: x in ranks
  }

  predicate InOrder<T(==,!new)>(ids: seq<T>, ranks: map<T, nat>)
    requires Ranked(ids, ranks)
  {
    forall i, j | 0 <= i < j < |ids| :: ranks[ids[i]] <= ranks[ids[j]]
  }

  /** In rank order, each ID once. */
  predicate InStrictOrder<T(==,!new)>(ids: seq<T>, ranks: map<T, nat>)
    requires Ranked(ids, ranks)
  {
    forall i, j | 0 <= i < j < |ids| :: ranks[ids[i]] < ranks[ids[j]]
  }

  ghost predicate SameIDs<T(!new)>(a: seq<T>, b: seq<T>) {
    forall x :: x in a <==> x in b
  }

  lemma BothEmpty<T(!new)>(a: seq<T>, b: seq<T>)
    requires SameIDs(a, b)
    ensures a == [] <==> b == []
  {
    if a != [] {
      assert a[0] in a;
    }
    if b != [] {
      assert b[0] in b;
    }
  }

  ghost predicate Injective<T(!new)>(ranks: map<T, nat>) {
    forall x, y | x in ranks && y in ranks && ranks[x] == ranks[y] :: x == y
  }

  /** Two strictly ordered lists of the same IDs are the same list. */
  lemma {:induction false} StrictOrderUnique<T(!new)>(a: seq<T>, b: seq<T>, ranks: map<T, nat>)
    requires Ranked(a, ranks) && Ranked(b, ranks) && InStrictOrder(a, ranks) && InStrictOrder(b, ranks)
    requires SameIDs(a, b)
    ensures a == b
  {
    BothEmpty(a, b);
    if |a| > 0 {
      var x, y := a[|a| - 1], b[|b| - 1];
      assert x in b && y in a;
      assert ranks[x] <= ranks[y] && ranks[y] <= ranks[x];
      var i :| 0 <= i < |b| && b[i] == x;
      var a', b' := a[..|a| - 1], b[..|b| - 1];
      assert x == y;
      forall z
        ensures z in a' <==> z in b'
      {
        assert a == a' + [x] && b == b' + [y];
        assert z in a' ==> ranks[z] < ranks[x];
        assert z in b' ==> ranks[z] < ranks[y];
        assert z in a <==> z in b;
      }
      StrictOrderUnique(a', b', ranks);
      assert a == a' + [x] && b == b' + [y];
    }
  }

  /** Whether the buffer is already in rank order. */
  method IsSortedByRank<T(==,!new)>(a: array<T>, ranks: map<T, nat>) returns (sorted: bool)
    requires Ranked(a[..], ranks)
    ensures sorted <==> InOrder(a[..], ranks)
  {
    if a.Length == 0 {
      return true;
    }
    for i := 1 to a.Length
      invariant InOrder(a[..i], ranks)
    {
      assert a[i - 1] in a[..] && a[i] in a[..];
      if ranks[a[i]] < ranks[a[i - 1]] {
        assert a[..][i] == a[i];
        return false;
      }
      assert a[..i + 1] == a[..i] + [a[i]];
    }
    assert a[..a.Length] == a[..];
    return true;
  }

  /** The first i+1 elements are in order once the one at j is left out, and it precedes those after it. */
  predicate Sinking<T(==,!new)>(ids: seq<T>, i: nat, j: nat, ranks: map<T, nat>)
    requires Ranked(ids, ranks)
  {
    j <= i < |ids| && forall k, l | 0 <= k < l <= i && l != j :: ranks[ids[k]] <= ranks[ids[l]]
  }

  lemma SinkStep<T(!new)>(ids: seq<T>, i: nat, j: nat, ranks: map<T, nat>)
    requires Ranked(ids, ranks) && Sinking(ids, i, j, ranks) && j > 0 && ranks[ids[j]] < ranks[ids[j - 1]]
    ensures var swapped := ids[j - 1 := ids[j]][j := ids[j - 1]];
      multiset(swapped) == multiset(ids) && Ranked(swapped, ranks) && Sinking(swapped, i, j - 1, ranks)
  {
  }

  /** Moving element i down to its place among the ordered ones before it. */
  method SinkIn<T(==,!new)>(a: array<T>, i: nat, ranks: map<T, nat>)
    requires i < a.Length && Ranked(a[..], ranks) && InOrder(a[..i], ranks)
    modifies a
    ensures multiset(a[..]) == multiset(old(a[..])) && Ranked(a[..], ranks) && InOrder(a[..i + 1], ranks)
  {
    assert forall k, l | 0 <= k < l < i :: a[..i][k] == a[..][k] && a[..i][l] == a[..][l];
    var j: nat := i;
    assert Sinking(a[..], i, j, ranks);
    hide Sinking, InOrder;
    while j > 0 && ranks[a[..][j]] < ranks[a[..][j - 1]]
      invariant j <= i && Ranked(a[..], ranks) && Sinking(a[..], i, j, ranks)
      invariant multiset(a[..]) == multiset(old(a[..]))
    {
      SinkStep(a[..], i, j, ranks);
      ghost var before := a[..];
      a[j - 1], a[j] := a[j], a[j - 1];
      assert a[..] == before[j - 1 := before[j]][j := before[j - 1]];
      j := j - 1;
    }
    SunkIn(a[..], i, j, ranks);
    assert a[..][..i + 1] == a[..i + 1];
  }

  lemma SunkIn<T(!new)>(ids: seq<T>, i: nat, j: nat, ranks: map<T, nat>)
    requires Ranked(ids, ranks) && Sinking(ids, i, j, ranks) && (j == 0 || ranks[ids[j - 1]] <= ranks[ids[j]])
    ensures InOrder(ids[..i + 1], ranks)
  {
    forall k | 0 <= k < j
      ensures ranks[ids[k]] <= ranks[ids[j]]
    {
      assert k < j - 1 ==> ranks[ids[k]] <= ranks[ids[j - 1]];
    }
  }

  /** Sorting the buffer by rank in place. */
  method SortByRank<T(==,!new)>(a: array<T>, ranks: map<T, nat>)
    requires Ranked(a[..], ranks)
    modifies a
    ensures multiset(a[..]) == multiset(old(a[..])) && Ranked(a[..], ranks) && InOrder(a[..], ranks)
  {
    assert a[..0] == [];
    assert InOrder(a[..0], ranks);
    hide InOrder;
    for i := 0 to a.Length
      invariant multiset(a[..]) == multiset(old(a[..])) && Ranked(a[..], ranks) && InOrder(a[..i], ranks)
    {
      SinkIn(a, i, ranks);
    }
    assert a[..a.Length] == a[..];
  }

  /** What dropping repeats has kept of an ordered list: the same IDs, each once, ending with the last one seen. */
  ghost predicate Compacted<T(!new)>(kept: seq<T>, seen: seq<T>, ranks: map<T, nat>) {
    && Ranked(kept, ranks) && InStrictOrder(kept, ranks) && SameIDs(kept, seen)
    && (seen != [] ==> kept != [] && kept[|kept| - 1] == seen[|seen| - 1])
  }

  /** One more element of the ordered list: kept unless it repeats the last one. */
  ghost function Keep<T>(kept: seq<T>, x: T): seq<T> {
    if kept != [] && x == kept[|kept| - 1] then kept else kept + [x]
  }

  lemma CompactStep<T(!new)>(kept: seq<T>, was: seq<T>, i: nat, ranks: map<T, nat>)
    requires i < |was| && Ranked(was, ranks) && InOrder(was, ranks) && Injective(ranks)
    requires Compacted(kept, was[..i], ranks)
    ensures Compacted(Keep(kept, was[i]), was[..i + 1], ranks)
  {
    assert was[..i + 1] == was[..i] + [was[i]];
    KeepStep(kept, was[..i], was[i], ranks);
  }

  lemma KeepStep<T(!new)>(kept: seq<T>, seen: seq<T>, x: T, ranks: map<T, nat>)
    requires Ranked(seen + [x], ranks) && InOrder(seen + [x], ranks) && Injective(ranks) && Compacted(kept, seen, ranks)
    ensures Compacted(Keep(kept, x), seen + [x], ranks)
  {
    assert x == (seen + [x])[|seen|];
    BothEmpty(kept, seen);
    if seen != [] {
      assert ranks[(seen + [x])[|seen| - 1]] <= ranks[(seen + [x])[|seen|]];
    }
    KeepSame(kept, seen, x);
    hide SameIDs;
  }

  lemma KeepSame<T(!new)>(kept: seq<T>, seen: seq<T>, x: T)
    requires SameIDs(kept, seen)
    ensures SameIDs(Keep(kept, x), seen + [x])
  {
    forall y
      ensures y in Keep(kept, x) <==> y in seen + [x]
    {
      assert y in kept <==> y in seen;
      if kept != [] {
        assert kept[|kept| - 1] in kept;
      }
    }
  }

  /** Cell i kept after the first n cells, unless it repeats the last of them. */
  method KeepCell<T(==)>(a: array<T>, n: nat, i: nat) returns (m: nat)
    requires n <= i < a.Length
    modifies a
    ensures m <= i + 1 && a[..m] == Keep(old(a[..n]), old(a[i]))
    ensures forall k | i < k < a.Length :: a[k] == old(a[k])
  {
    m := n;
    if n == 0 || a[i] != a[n - 1] {
      a[n] := a[i];
      m := n + 1;
    }
  }

  /** Dropping repeats of an ordered buffer in place; the first n cells are what is left. */
  method Compact<T(==,!new)>(a: array<T>, ranks: map<T, nat>) returns (n: nat)
    requires Ranked(a[..], ranks) && InOrder(a[..], ranks) && Injective(ranks)
    modifies a
    ensures n <= a.Length && Compacted(a[..n], old(a[..]), ranks)
  {
    ghost var was := a[..];
    n := 0;
    assert Compacted(a[..n], was[..0], ranks);
    hide *;
    for i := 0 to a.Length
      invariant n <= i && Compacted(a[..n], was[..i], ranks)
      invariant forall k | i <= k < a.Length :: a[k] == was[k]
    {
      CompactStep(a[..n], was, i, ranks);
      n := KeepCell(a, n, i);
    }
    assert was[..a.Length] == was;
  }

  /** The found IDs put back in subscription order, each once, after the caller's buffer. */
  method Order<T(==,!new)>(dst: seq<T>, start: nat, ranks: map<T, nat>) returns (r: seq<T>)
    requires start <= |dst| && Ranked(dst[start..], ranks) && Injective(ranks)
    ensures start <= |r| && r[..start] == dst[..start]
    ensures Ranked(r[start..], ranks) && InStrictOrder(r[start..], ranks) && SameIDs(r[start..], dst[start..])
  {
    var found := dst[start..];
    if |found| < 2 {
      return dst;
    }
    var a := new T[|found|](i requires 0 <= i < |found| => found[i]);
    assert a[..] == found;
    var sorted := IsSortedByRank(a, ranks);
    if !sorted {
      SortByRank(a, ranks);
      assert forall x :: x in a[..] <==> x in multiset(a[..]);
    }
    assert SameIDs(a[..], found) by {
      assert forall x :: x in found <==> x in multiset(found);
    }
    var n := Compact(a, ranks);
    r := dst[..start] + a[..n];
    assert r[start..] == a[..n];
  }
}
