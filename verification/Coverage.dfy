/** Unions of coverage maps and their nonzero bytes. Source: src/pmfuzz/core/whatsup.py. */
module Coverage {
  import opened Names

  type Content = seq<bv8>

  /** All maps of a run have the same size; `|` raises an error otherwise. */
  ghost predicate Sized(maps: seq<Content>, size: nat) {
    forall i :: 0 <= i < |maps| ==> |maps[i]| == size
  }

  function Or(a: Content, b: Content): (c: Content)
    requires |a| == |b|
    ensures |c| == |a|
  {
    seq(|a|, i requires 0 <= i < |a| => a[i] | b[i])
  }

  /** Every bit of `m` is set in `big`. */
  predicate Covers(big: Content, m: Content) {
    |big| == |m| && forall i :: 0 <= i < |m| ==> big[i] | m[i] == big[i]
  }

  /** The union of a nonempty list of maps. */
  function Union(maps: seq<Content>, size: nat): (u: Content)
    requires maps != [] && Sized(maps, size)
    ensures |u| == size
  {
    if |maps| == 1 then maps[0] else Or(Union(maps[..|maps| - 1], size), maps[|maps| - 1])
  }

  lemma OrBits(x: bv8, y: bv8, z: bv8)
    ensures (x | y) | x == x | y && (x | y) | y == x | y && x | x == x
    ensures z | x == z && z | y == z ==> z | (x | y) == z
    ensures z | x == z && x | z == x ==> x == z
    ensures z | x == z && x | y == x ==> z | y == z
    ensures z | x == z && x != 0 ==> z != 0
  {
  }

  lemma OrIsLeast(a: Content, b: Content, big: Content)
    requires |a| == |b|
    ensures Covers(Or(a, b), a) && Covers(Or(a, b), b)
    ensures Covers(big, a) && Covers(big, b) ==> Covers(big, Or(a, b))
  {
    forall i | 0 <= i < |a|
      ensures (a[i] | b[i]) | a[i] == a[i] | b[i] && (a[i] | b[i]) | b[i] == a[i] | b[i]
    {
      OrBits(a[i], b[i], a[i]);
    }
    if Covers(big, a) && Covers(big, b) {
      OrBelow(a, b, big);
    }
  }

  lemma OrBelow(a: Content, b: Content, big: Content)
    requires |a| == |b| && Covers(big, a) && Covers(big, b)
    ensures Covers(big, Or(a, b))
  {
    forall i | 0 <= i < |a|
      ensures big[i] | Or(a, b)[i] == big[i]
    {
      OrBits(a[i], b[i], big[i]);
    }
  }

  lemma CoversTransitive(a: Content, b: Content, c: Content)
    requires Covers(a, b) && Covers(b, c)
    ensures Covers(a, c)
  {
    forall i | 0 <= i < |c|
      ensures a[i] | c[i] == a[i]
    {
      OrBits(b[i], c[i], a[i]);
    }
  }

  lemma CoversAntisymmetric(a: Content, b: Content)
    requires Covers(a, b) && Covers(b, a)
    ensures a == b
  {
    forall i | 0 <= i < |a|
      ensures a[i] == b[i]
    {
      OrBits(b[i], b[i], a[i]);
    }
  }

  /** The union covers each map, and is covered by whatever covers them all. */
  lemma {:induction false} UnionIsLeast(maps: seq<Content>, size: nat, big: Content)
    requires maps != [] && Sized(maps, size)
    ensures forall m :: m in maps ==> Covers(Union(maps, size), m)
    ensures (forall m :: m in maps ==> Covers(big, m)) ==> Covers(big, Union(maps, size))
  {
    var n := |maps| - 1;
    if n == 0 {
      forall m | m in maps
        ensures Covers(Union(maps, size), m)
      {
        OrIsLeast(m, m, m);
        SelfCovers(m);
      }
    } else {
      var rest, last := maps[..n], maps[n];
      UnionIsLeast(rest, size, big);
      OrIsLeast(Union(rest, size), last, big);
      forall m | m in maps
        ensures Covers(Union(maps, size), m)
      {
        if m in rest {
          CoversTransitive(Union(maps, size), Union(rest, size), m);
        }
      }
    }
  }

  /** Bit by bit, the union has what some map has. */
  lemma {:induction false} UnionBits(maps: seq<Content>, size: nat, i: nat, b: nat)
    requires maps != [] && Sized(maps, size) && i < size && b < 8
    ensures (Union(maps, size)[i] >> b) & 1 == 1 <==>
            exists j :: 0 <= j < |maps| && (maps[j][i] >> b) & 1 == 1
  {
    var n := |maps| - 1;
    if n > 0 {
      var rest := maps[..n];
      UnionBits(rest, size, i, b);
      OrBit(Union(rest, size)[i], maps[n][i], b);
      assert forall j :: 0 <= j < n ==> rest[j] == maps[j];
    }
  }

  lemma OrBit(x: bv8, y: bv8, b: nat)
    requires b < 8
    ensures ((x | y) >> b) & 1 == 1 <==> (x >> b) & 1 == 1 || (y >> b) & 1 == 1
  {
  }

  lemma SelfCovers(m: Content)
    ensures Covers(m, m)
  {
    forall i | 0 <= i < |m|
      ensures m[i] | m[i] == m[i]
    {
      OrBits(m[i], m[i], m[i]);
    }
  }

  /** More maps cover more. */
  lemma UnionGrows(a: seq<Content>, b: seq<Content>, size: nat)
    requires a != [] && b != [] && Sized(a, size) && Sized(b, size)
    requires forall m :: m in a ==> m in b
    ensures Covers(Union(b, size), Union(a, size))
  {
    UnionIsLeast(b, size, Union(b, size));
    UnionIsLeast(a, size, Union(b, size));
  }

  /** The union depends only on which maps occur, not on their order or repetition. */
  lemma UnionOfSameMaps(a: seq<Content>, b: seq<Content>, size: nat)
    requires a != [] && b != [] && Sized(a, size) && Sized(b, size)
    requires forall m :: m in a <==> m in b
    ensures Union(a, size) == Union(b, size)
  {
    UnionGrows(a, b, size);
    UnionGrows(b, a, size);
    CoversAntisymmetric(Union(a, size), Union(b, size));
  }

  /** `get_cumulative_map` over the maps of a directory, in listing order. */
  method GetCumulativeMap(maps: seq<Content>, size: nat) returns (cumulative: Option<Content>)
    requires Sized(maps, size)
    ensures cumulative == if maps == [] then None else Some(Union(maps, size))
  {
    cumulative := None;
    var i := 0;
    while i < |maps|
      invariant 0 <= i <= |maps|
      invariant cumulative == if i == 0 then None else Some(Union(maps[..i], size))
    {
      assert maps[..i + 1][..i] == maps[..i];
      if cumulative.None? {
        cumulative := Some(maps[i]);
      } else {
        cumulative := Some(Or(cumulative.value, maps[i]));
      }
      i := i + 1;
    }
    assert maps[..i] == maps;
  }

  /** The maps that are there. */
  function Present(maps: seq<Option<Content>>): seq<Content> {
    if maps == [] then []
    else Present(maps[..|maps| - 1]) + (if maps[|maps| - 1].Some? then [maps[|maps| - 1].value] else [])
  }

  /**
   `combine_maps`. Only a missing later map is skipped: the call fails on no map at all, and when the
   first map is missing and a later one is there.
   */
  method CombineMaps(maps: seq<Option<Content>>, size: nat) returns (ok: bool, cumulative: Option<Content>)
    requires Sized(Present(maps), size)
    ensures ok <==> maps != [] && (maps[0].Some? || Present(maps) == [])
    ensures ok ==> cumulative == if Present(maps) == [] then None else Some(Union(Present(maps), size))
  {
    hide Present, Union, Sized;
    cumulative := None;
    if |maps| < 1 {
      return false, None;
    }
    cumulative := maps[0];
    PresentFirst(maps, size);
    var i := 1;
    while i < |maps|
      invariant 1 <= i <= |maps|
      invariant maps[0].None? ==> Present(maps[..i]) == []
      invariant maps[0].Some? ==> Present(maps[..i]) != []
      invariant Sized(Present(maps[..i]), size)
      invariant cumulative == if Present(maps[..i]) == [] then None else Some(Union(Present(maps[..i]), size))
    {
      PresentPrefix(maps, i + 1, size);
      PresentNext(maps, i);
      if maps[i].Some? {
        if cumulative.None? {
          PresentSize(maps, i + 1);
          return false, None;
        }
        UnionNext(Present(maps[..i]), maps[i].value, size);
        cumulative := Some(Or(cumulative.value, maps[i].value));
      }
      i := i + 1;
    }
    assert maps[..i] == maps;
    ok := true;
  }

  lemma {:induction false} PresentIff(maps: seq<Option<Content>>, m: Content)
    ensures m in Present(maps) <==> Some(m) in maps
  {
    if maps != [] {
      PresentIff(maps[..|maps| - 1], m);
      assert maps == maps[..|maps| - 1] + [maps[|maps| - 1]];
    }
  }

  lemma PresentFirst(maps: seq<Option<Content>>, size: nat)
    requires maps != [] && Sized(Present(maps), size)
    ensures Present(maps[..1]) == if maps[0].Some? then [maps[0].value] else []
    ensures Sized(Present(maps[..1]), size)
    ensures maps[0].Some? ==> Union(Present(maps[..1]), size) == maps[0].value
  {
    assert maps[..1][..0] == [] && Present([]) == [];
    PresentPrefix(maps, 1, size);
  }

  lemma PresentNext(maps: seq<Option<Content>>, i: nat)
    requires i < |maps|
    ensures Present(maps[..i + 1])
            == if maps[i].Some? then Present(maps[..i]) + [maps[i].value] else Present(maps[..i])
  {
    assert maps[..i + 1][..i] == maps[..i];
  }

  /** One more map in the union. */
  lemma UnionNext(before: seq<Content>, m: Content, size: nat)
    requires before != [] && Sized(before, size) && Sized(before + [m], size)
    ensures |m| == size && Union(before + [m], size) == Or(Union(before, size), m)
  {
    var maps := before + [m];
    assert maps[|before|] == m;
    assert maps[..|maps| - 1] == before;
  }

  lemma {:induction false} PresentPrefix(maps: seq<Option<Content>>, i: nat, size: nat)
    requires i <= |maps| && Sized(Present(maps), size)
    ensures Sized(Present(maps[..i]), size)
    decreases |maps|
  {
    if i < |maps| {
      var rest := maps[..|maps| - 1];
      forall j | 0 <= j < |Present(rest)|
        ensures |Present(rest)[j]| == size
      {
        assert Present(maps)[j] == Present(rest)[j];
      }
      PresentPrefix(rest, i, size);
      assert rest[..i] == maps[..i];
    } else {
      assert maps[..i] == maps;
    }
  }

  lemma {:induction false} PresentSize(maps: seq<Option<Content>>, i: nat)
    requires i <= |maps|
    ensures |Present(maps[..i])| <= |Present(maps)|
    decreases |maps|
  {
    if i < |maps| {
      var rest := maps[..|maps| - 1];
      PresentSize(rest, i);
      assert rest[..i] == maps[..i];
    } else {
      assert maps[..i] == maps;
    }
  }

  /** Bytes that are not zero. */
  function NonZero(m: Content): nat {
    if m == [] then 0 else NonZero(m[..|m| - 1]) + (if m[|m| - 1] != 0 then 1 else 0)
  }

  /** `count_tuples`. */
  method CountTuples(m: Option<Content>) returns (count: nat)
    ensures count == if m.None? then 0 else NonZero(m.value)
    ensures m.Some? ==> count == |set i: nat | i < |m.value| && m.value[i] != 0|
  {
    count := 0;
    if m.Some? {
      var i := 0;
      while i < |m.value|
        invariant 0 <= i <= |m.value|
        invariant count == NonZero(m.value[..i])
      {
        assert m.value[..i + 1][..i] == m.value[..i];
        if m.value[i] != 0 {
          count := count + 1;
        }
        i := i + 1;
      }
      assert m.value[..i] == m.value;
      NonZeroCounts(m.value);
    }
  }

  lemma {:induction false} NonZeroCounts(m: Content)
    ensures NonZero(m) == |set i: nat | i < |m| && m[i] != 0|
  {
    var places := set i: nat | i < |m| && m[i] != 0;
    if m == [] {
      assert places == {};
    } else {
      var n := |m| - 1;
      NonZeroCounts(m[..n]);
      var fewer := set i: nat | i < n && m[..n][i] != 0;
      assert places == fewer + if m[n] != 0 then {n} else {};
    }
  }

  /** A map that covers another has at least as many nonzero bytes, and more if one of them is zero in the other. */
  lemma {:induction false} NonZeroMonotone(big: Content, m: Content)
    requires Covers(big, m)
    ensures NonZero(m) <= NonZero(big)
    ensures (exists i :: 0 <= i < |m| && m[i] == 0 && big[i] != 0) ==> NonZero(m) < NonZero(big)
  {
    if m != [] {
      var n := |m| - 1;
      forall i | 0 <= i < n
        ensures big[..n][i] | m[..n][i] == big[..n][i]
      {
        assert big[i] | m[i] == big[i];
      }
      NonZeroMonotone(big[..n], m[..n]);
      forall i | 0 <= i < n && m[i] == 0 && big[i] != 0
        ensures NonZero(m[..n]) < NonZero(big[..n])
      {
        assert m[..n][i] == 0 && big[..n][i] != 0;
      }
      OrBits(m[n], m[n], big[n]);
    }
  }
}
