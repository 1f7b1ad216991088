/**
 Deleting list entries by collected index, from the last one down.
 Source: src/pmfuzz/helper/parallel.py:49-74, src/pmfuzz/stages/dedup.py:734-744.
 */
module ListDeletion {
  /** What is left of the list without the entries at these indices. */
  function Kept<T>(list: seq<T>, drop: set<nat>): seq<T> {
    if list == [] then []
    else
      var n := |list| - 1;
      Kept(list[..n], drop) + (if n in drop then [] else [list[n]])
  }

  /** An entry that stays comes after exactly the entries before it that stay. */
  lemma {:induction false} KeptAt<T>(list: seq<T>, drop: set<nat>, i: nat)
    requires i < |list| && i !in drop
    ensures |Kept(list[..i], drop)| < |Kept(list, drop)|
    ensures Kept(list, drop)[|Kept(list[..i], drop)|] == list[i]
  {
    var n := |list| - 1;
    if i < n {
      KeptAt(list[..n], drop, i);
      assert list[..n][..i] == list[..i];
    }
  }

  /** Nothing else is there, and nothing more is lost than was to be. */
  lemma {:induction false} KeptLength<T>(list: seq<T>, drop: set<nat>)
    requires forall i :: i in drop ==> i < |list|
    ensures |Kept(list, drop)| == |list| - |drop|
  {
    if list == [] {
      assert drop == {};
    } else {
      var n := |list| - 1;
      KeptLength(list[..n], drop - {n});
      KeptIrrelevant(list[..n], drop, n);
    }
  }

  lemma {:induction false} KeptIrrelevant<T>(list: seq<T>, drop: set<nat>, n: nat)
    requires n >= |list|
    ensures Kept(list, drop - {n}) == Kept(list, drop)
  {
    if list != [] {
      KeptIrrelevant(list[..|list| - 1], drop, n);
    }
  }

  lemma {:induction false} KeptAll<T>(list: seq<T>, drop: set<nat>)
    requires forall i :: i in drop ==> i >= |list|
    ensures Kept(list, drop) == list
  {
    if list != [] {
      KeptAll(list[..|list| - 1], drop);
    }
  }

  lemma {:induction false} KeptMembers<T>(list: seq<T>, drop: set<nat>)
    ensures forall x :: x in Kept(list, drop) <==> exists i :: 0 <= i < |list| && i !in drop && list[i] == x
  {
    if list != [] {
      var n := |list| - 1;
      KeptMembers(list[..n], drop);
      forall x
        ensures x in Kept(list, drop) <==> exists i :: 0 <= i < |list| && i !in drop && list[i] == x
      {
        assert x in Kept(list, drop) <==> x in Kept(list[..n], drop) || (n !in drop && list[n] == x);
      }
    }
  }

  ghost predicate Distinct<T>(list: seq<T>) {
    forall i, j :: 0 <= i < j < |list| ==> list[i] != list[j]
  }

  lemma {:induction false} KeptDistinct<T>(list: seq<T>, drop: set<nat>)
    requires Distinct(list)
    ensures Distinct(Kept(list, drop))
  {
    if list != [] {
      var n := |list| - 1;
      var rest := list[..n];
      KeptDistinct(rest, drop);
      KeptMembers(rest, drop);
      assert list[n] !in Kept(rest, drop);
    }
  }

  /** Deleting one more entry, before all those deleted already, deletes that entry. */
  lemma {:induction false} DeleteBefore<T>(list: seq<T>, drop: set<nat>, i: nat)
    requires i < |list| && forall j :: j in drop ==> i < j
    ensures i < |Kept(list, drop)|
    ensures Kept(list, drop + {i}) == Kept(list, drop)[..i] + Kept(list, drop)[i + 1..]
  {
    var n := |list| - 1;
    var rest := list[..n];
    if i < n {
      DeleteBefore(rest, drop, i);
    } else {
      KeptAll(list, drop);
      KeptAll(rest, drop + {i});
    }
  }

  function IndicesFrom(idx: seq<nat>, k: nat): set<nat>
    requires k <= |idx|
  {
    set i | i in idx[k..]
  }

  ghost predicate Ascending(idx: seq<nat>) {
    forall j, k :: 0 <= j < k < |idx| ==> idx[j] < idx[k]
  }

  /** `for i in sorted(idx, reverse=True): del list[i]`. */
  method DeleteEntries<T>(list: seq<T>, idx: seq<nat>) returns (left: seq<T>)
    requires Ascending(idx) && forall k :: 0 <= k < |idx| ==> idx[k] < |list|
    ensures left == Kept(list, IndicesFrom(idx, 0))
  {
    left := list;
    var k := |idx|;
    KeptAll(list, IndicesFrom(idx, k));
    while k > 0
      invariant 0 <= k <= |idx|
      invariant left == Kept(list, IndicesFrom(idx, k))
    {
      k := k - 1;
      DeleteBefore(list, IndicesFrom(idx, k + 1), idx[k]);
      assert IndicesFrom(idx, k) == IndicesFrom(idx, k + 1) + {idx[k]} by {
        assert idx[k..] == [idx[k]] + idx[k + 1..];
      }
      left := left[..idx[k]] + left[idx[k] + 1..];
    }
  }

  /** The entries `use` accepts, in order. */
  function Filter<T>(list: seq<T>, use: set<T>): seq<T> {
    if list == [] then []
    else
      var n := |list| - 1;
      Filter(list[..n], use) + (if list[n] in use then [list[n]] else [])
  }

  lemma {:induction false} KeptIsFilter<T>(list: seq<T>, use: set<T>, drop: set<nat>)
    requires forall i :: 0 <= i < |list| ==> (i in drop <==> list[i] !in use)
    ensures Kept(list, drop) == Filter(list, use)
  {
    if list != [] {
      KeptIsFilter(list[..|list| - 1], use, drop);
    }
  }

  /** Entry by entry, in order. */
  lemma {:induction false} FilterConcat<T>(a: seq<T>, b: seq<T>, use: set<T>)
    ensures Filter(a + b, use) == Filter(a, use) + Filter(b, use)
  {
    if b == [] {
      assert a + b == a;
    } else {
      var n := |b| - 1;
      FilterConcat(a, b[..n], use);
      assert (a + b)[..|a| + n] == a + b[..n];
    }
  }

  lemma FilterOne<T>(x: T, use: set<T>)
    ensures Filter([x], use) == if x in use then [x] else []
  {
    assert [x][..0] == [];
  }

  /** `local_dedup_list_st2`: of the local store's testcases, those whose ids the configuration selects. */
  method LocalDedupListSt2<T(==)>(all: seq<T>, use: set<T>) returns (result: seq<T>)
    ensures result == Filter(all, use)
  {
    result := all;
    var idx2del: seq<nat> := [];
    var iter := 0;
    while iter < |result|
      invariant 0 <= iter <= |result|
      invariant Ascending(idx2del)
      invariant forall k :: 0 <= k < |idx2del| ==> idx2del[k] < iter
      invariant forall i :: i in idx2del <==> 0 <= i < iter && all[i] !in use
    {
      if result[iter] !in use {
        idx2del := idx2del + [iter];
      }
      iter := iter + 1;
    }
    KeptIsFilter(all, use, IndicesFrom(idx2del, 0));
    result := DeleteEntries(result, idx2del);
  }
}
