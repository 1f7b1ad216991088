/** Directory listings: sequences that name each entry of a set once, in any order. */
module Listings {
  ghost predicate Lists<T>(list: seq<T>, names: set<T>) {
    && (forall i :: 0 <= i < |list| ==> list[i] in names)
    && (forall n :: n in names ==> n in list)
    && (forall i, j :: 0 <= i < j < |list| ==> list[i] != list[j])
  }

  function Among<T(==)>(list: seq<T>): set<T> {
    set n | n in list
  }

  /** The first `i` names of a listing. */
  ghost function Seen<T>(list: seq<T>, i: nat): set<T>
    requires i <= |list|
  {
    set n | n in list[..i]
  }

  lemma SeenNext<T>(list: seq<T>, names: set<T>, i: nat)
    requires Lists(list, names) && i < |list|
    ensures list[i] in names && list[i] !in Seen(list, i) && Seen(list, i + 1) == Seen(list, i) + {list[i]}
  {
  }

  lemma SeenAll<T>(list: seq<T>, names: set<T>)
    requires Lists(list, names)
    ensures Seen(list, 0) == {} && Seen(list, |list|) == names
  {
    assert list[..|list|] == list;
  }

  /** Deleting one entry of a list without repetitions removes exactly that entry. */
  lemma AmongOthers<T>(list: seq<T>, i: nat)
    requires i < |list| && forall j, k :: 0 <= j < k < |list| ==> list[j] != list[k]
    ensures Among(list[..i] + list[i + 1..]) == Among(list) - {list[i]}
  {
    var rest := list[..i] + list[i + 1..];
    forall n
      ensures n in rest <==> n in list && n != list[i]
    {
      if n in list && n != list[i] {
        var j :| 0 <= j < |list| && list[j] == n;
        assert rest[if j < i then j else j - 1] == n;
      }
    }
  }
}
