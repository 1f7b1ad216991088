/**
 Deduplication of map files: of the testcases whose maps are the same, only the first with the fewest
 ancestors keeps its files. Source: src/pmfuzz/core/dedupengine.py. The hash of a map is taken as injective.
 */
module DedupEngine {
  import opened Names
  import opened FileNames
  import opened Coverage
  import opened Corpus
  import opened DedupStage
  import opened Listings

  /** The files `get_metadata_files` lists when no tombstone is asked for: all that `_delete_tcs` removes. */
  const METADATA: seq<Kind> := [
    Testcase, MinTestcase, ExecMap, PmMap, CrashSite, CmprCrashSite, Image, CmprImage, Clean
  ]

  lemma MetadataIsAllButDeleted(n: Name, k: Kind)
    ensures k in METADATA <==> k in Family(n, false)
    ensures k in METADATA <==> !k.Deleted?
  {
    match k
    case Testcase => assert METADATA[0] == k;
    case MinTestcase => assert METADATA[1] == k;
    case ExecMap => assert METADATA[2] == k;
    case PmMap => assert METADATA[3] == k;
    case CrashSite => assert METADATA[4] == k;
    case CmprCrashSite => assert METADATA[5] == k;
    case Image => assert METADATA[6] == k;
    case CmprImage => assert METADATA[7] == k;
    case Clean => assert METADATA[8] == k;
    case Deleted =>
  }

  /** Map files of one kind, listed once each. */
  ghost predicate MapList(k: Kind, names: seq<Name>) {
    && (k.ExecMap? || k.PmMap?)
    && (forall i :: 0 <= i < |names| ==> WellFormed(names[i]))
    && (forall i, j :: 0 <= i < j < |names| ==> names[i] != names[j])
  }

  /** And all of them are there. */
  ghost predicate AreMaps(d: Dir, k: Kind, names: seq<Name>) {
    MapList(k, names) && forall i :: 0 <= i < |names| ==> File(k, names[i]) in d
  }

  function MapOf(d: Dir, k: Kind, n: Name): Content
    requires File(k, n) in d
  {
    d[File(k, n)]
  }

  /** The testcases with map `c`, in listing order. */
  function Group(d: Dir, k: Kind, names: seq<Name>, c: Content): seq<Name>
    requires forall n :: n in names ==> File(k, n) in d
  {
    if names == [] then []
    else
      var rest, n := names[..|names| - 1], names[|names| - 1];
      Group(d, k, rest, c) + (if MapOf(d, k, n) == c then [n] else [])
  }

  lemma {:induction false} GroupMembers(d: Dir, k: Kind, names: seq<Name>, c: Content)
    requires AreMaps(d, k, names)
    ensures forall n :: n in Group(d, k, names, c) <==> n in names && MapOf(d, k, n) == c
    ensures forall i, j :: 0 <= i < j < |Group(d, k, names, c)| ==> Group(d, k, names, c)[i] != Group(d, k, names, c)[j]
  {
    if names != [] {
      var rest := names[..|names| - 1];
      GroupMembers(d, k, rest, c);
      assert names == rest + [names[|names| - 1]];
    }
  }

  /** The first of the names with the fewest ancestors. */
  function FirstFewest(g: seq<Name>): Name
    requires g != []
  {
    if |g| == 1 then g[0]
    else
      var best, n := FirstFewest(g[..|g| - 1]), g[|g| - 1];
      if Ancestors(n) < Ancestors(best) then n else best
  }

  lemma {:induction false} FirstFewestIsLeast(g: seq<Name>)
    requires g != []
    ensures FirstFewest(g) in g && forall n :: n in g ==> Ancestors(FirstFewest(g)) <= Ancestors(n)
  {
    if |g| > 1 {
      var rest := g[..|g| - 1];
      FirstFewestIsLeast(rest);
      assert g == rest + [g[|g| - 1]];
    }
  }

  /** The testcase that keeps its files when its map is `c`. */
  function Survivor(d: Dir, k: Kind, names: seq<Name>, c: Content): Name
    requires forall n :: n in names ==> File(k, n) in d
    requires Group(d, k, names, c) != []
  {
    FirstFewest(Group(d, k, names, c))
  }

  /** No other testcase with the same map has fewer ancestors, and none listed before it has as few. */
  ghost predicate Survives(d: Dir, k: Kind, names: seq<Name>, i: nat)
    requires i < |names| && forall n :: n in names ==> File(k, n) in d
  {
    forall j :: 0 <= j < |names| && MapOf(d, k, names[j]) == MapOf(d, k, names[i]) ==>
      Ancestors(names[i]) < Ancestors(names[j]) || (Ancestors(names[i]) == Ancestors(names[j]) && i <= j)
  }

  lemma SurvivesLonger(d: Dir, k: Kind, names: seq<Name>, i: nat)
    requires AreMaps(d, k, names) && i < |names| - 1 && Survives(d, k, names[..|names| - 1], i)
    requires var n := names[|names| - 1];
             MapOf(d, k, n) == MapOf(d, k, names[i]) ==> Ancestors(names[i]) <= Ancestors(n)
    ensures Survives(d, k, names, i)
  {
    var rest := names[..|names| - 1];
    assert forall j :: 0 <= j < |rest| ==> names[j] == rest[j];
  }

  lemma LastSurvives(d: Dir, k: Kind, names: seq<Name>)
    requires AreMaps(d, k, names) && names != []
    requires forall m :: m in Group(d, k, names[..|names| - 1], MapOf(d, k, names[|names| - 1])) ==>
               Ancestors(names[|names| - 1]) < Ancestors(m)
    ensures Survives(d, k, names, |names| - 1)
  {
    var rest, c := names[..|names| - 1], MapOf(d, k, names[|names| - 1]);
    GroupMembers(d, k, rest, c);
    forall j | 0 <= j < |rest| && MapOf(d, k, names[j]) == c
      ensures Ancestors(names[|names| - 1]) < Ancestors(names[j])
    {
      assert rest[j] in Group(d, k, rest, c);
    }
  }

  /** Every map that occurs has a survivor: the one the engine keeps. */
  lemma {:induction false} SurvivorOf(d: Dir, k: Kind, names: seq<Name>, c: Content) returns (i: nat)
    requires AreMaps(d, k, names) && Group(d, k, names, c) != []
    ensures i < |names| && names[i] == Survivor(d, k, names, c)
    ensures MapOf(d, k, names[i]) == c && Survives(d, k, names, i)
  {
    hide Survives;
    var last := |names| - 1;
    var rest, n := names[..last], names[last];
    var g := Group(d, k, rest, c);
    if MapOf(d, k, n) != c {
      assert Group(d, k, names, c) == g;
      i := SurvivorOf(d, k, rest, c);
      SurvivesLonger(d, k, names, i);
    } else if g == [] {
      i := last;
      assert Group(d, k, names, c) == [n];
      LastSurvives(d, k, names);
    } else {
      i := SurvivorOf(d, k, rest, c);
      assert Group(d, k, names, c)[..|g|] == g;
      FirstFewestIsLeast(g);
      if Ancestors(n) < Ancestors(names[i]) {
        i := last;
        LastSurvives(d, k, names);
      } else {
        SurvivesLonger(d, k, names, i);
      }
    }
  }

  /** Of the testcases with the same map exactly one survives. */
  lemma OneSurvivorPerMap(d: Dir, k: Kind, names: seq<Name>, i: nat)
    requires AreMaps(d, k, names) && i < |names|
    ensures Group(d, k, names, MapOf(d, k, names[i])) != []
    ensures Survives(d, k, names, i) <==> names[i] == Survivor(d, k, names, MapOf(d, k, names[i]))
  {
    var c := MapOf(d, k, names[i]);
    GroupMembers(d, k, names, c);
    assert names[i] in Group(d, k, names, c);
    var s := SurvivorOf(d, k, names, c);
  }

  /** The testcases that lose their files: those whose map is in `contents` and kept by another. */
  function Dropped(d: Dir, k: Kind, names: seq<Name>, contents: set<Content>): set<Name>
    requires forall n :: n in names ==> File(k, n) in d
  {
    set n | n in names && MapOf(d, k, n) in contents && Group(d, k, names, MapOf(d, k, n)) != []
            && n != Survivor(d, k, names, MapOf(d, k, n))
  }

  function Contents(d: Dir, k: Kind, names: seq<Name>): set<Content>
    requires forall n :: n in names ==> File(k, n) in d
  {
    set n | n in names :: MapOf(d, k, n)
  }

  // ---------- Deleting ----------

  /** Only a tombstone is left of each deleted testcase. */
  function Deletion(d: Dir, names: set<Name>, stamp: Content): Dir {
    (map f | f in d && (f.name !in names || f.kind.Deleted?) :: d[f])
    + (map n | n in names :: File(Deleted, n) := stamp)
  }

  lemma DeletionTwice(d: Dir, a: set<Name>, b: set<Name>, stamp: Content)
    ensures Deletion(Deletion(d, a, stamp), b, stamp) == Deletion(d, a + b, stamp)
  {
    hide Deletion;
    forall f
      ensures var u, v := Deletion(Deletion(d, a, stamp), b, stamp), Deletion(d, a + b, stamp);
              (f in u <==> f in v) && (f in u ==> u[f] == v[f])
    {
      DeletionFile(d, a, stamp, f);
      DeletionFile(Deletion(d, a, stamp), b, stamp, f);
      DeletionFile(d, a + b, stamp, f);
    }
  }

  lemma DeletionFile(d: Dir, names: set<Name>, stamp: Content, f: File)
    ensures var u := Deletion(d, names, stamp);
            if f.name in names then (f in u <==> f.kind.Deleted?) && (f in u ==> u[f] == stamp)
            else (f in u <==> f in d) && (f in d ==> u[f] == d[f])
  {
    assert f.kind.Deleted? ==> f == File(Deleted, f.name);
  }

  lemma DeletionNone(d: Dir, stamp: Content)
    ensures Deletion(d, {}, stamp) == d
  {
  }

  /** With the tombstones of `names`. */
  function Marked(d: Dir, names: set<Name>, stamp: Content): Dir {
    d + (map n | n in names :: File(Deleted, n) := stamp)
  }

  /** Without the files of `names`, tombstones aside. */
  function Cleared(d: Dir, names: set<Name>): Dir {
    map f | f in d && (f.name !in names || f.kind.Deleted?) :: d[f]
  }

  lemma MarkedNext(d: Dir, list: seq<Name>, i: nat, stamp: Content)
    requires i < |list|
    ensures Marked(d, Among(list[..i + 1]), stamp)
            == Marked(d, Among(list[..i]), stamp)[File(Deleted, list[i]) := stamp]
  {
    assert list[..i + 1] == list[..i] + [list[i]];
  }

  lemma ClearedNext(d: Dir, list: seq<Name>, i: nat)
    requires i < |list|
    ensures Cleared(d, Among(list[..i + 1])) == Without(Cleared(d, Among(list[..i])), list[i], METADATA)
  {
    assert list[..i + 1] == list[..i] + [list[i]];
    forall f: File
      ensures f.kind in METADATA <==> !f.kind.Deleted?
    {
      MetadataIsAllButDeleted(f.name, f.kind);
    }
  }

  lemma GroupNext(d: Dir, k: Kind, names: seq<Name>, i: nat)
    requires i < |names| && AreMaps(d, k, names)
    ensures Contents(d, k, names[..i + 1]) == Contents(d, k, names[..i]) + {MapOf(d, k, names[i])}
    ensures forall c ::
      Group(d, k, names[..i + 1], c)
      == Group(d, k, names[..i], c) + (if MapOf(d, k, names[i]) == c then [names[i]] else [])
  {
    hide MapOf;
    assert names[..i + 1][..i] == names[..i];
    assert names[..i + 1] == names[..i] + [names[i]];
  }

  lemma GroupHasKey(d: Dir, k: Kind, names: seq<Name>, c: Content)
    requires AreMaps(d, k, names)
    ensures Group(d, k, names, c) != [] ==> c in Contents(d, k, names)
  {
    GroupMembers(d, k, names, c);
    if Group(d, k, names, c) != [] {
      assert Group(d, k, names, c)[0] in Group(d, k, names, c);
    }
  }

  ghost predicate Grouped(d: Dir, k: Kind, names: seq<Name>, hashMap: map<Content, seq<Name>>)
    requires forall n :: n in names ==> File(k, n) in d
  {
    && hashMap.Keys == Contents(d, k, names)
    && forall c :: c in hashMap ==> hashMap[c] == Group(d, k, names, c)
  }

  lemma GroupedNone(d: Dir, k: Kind)
    ensures Grouped(d, k, [], map[])
  {
  }

  lemma GroupedNext(d: Dir, k: Kind, names: seq<Name>, i: nat, hashMap: map<Content, seq<Name>>)
    requires i < |names| && AreMaps(d, k, names) && Grouped(d, k, names[..i], hashMap)
    ensures var sum := MapOf(d, k, names[i]);
            var entered := if sum in hashMap then hashMap else hashMap[sum := []];
            Grouped(d, k, names[..i + 1], entered[sum := entered[sum] + [names[i]]])
  {
    hide Group, Contents;
    GroupNext(d, k, names, i);
    GroupHasKey(d, k, names[..i], MapOf(d, k, names[i]));
    var sum := MapOf(d, k, names[i]);
    var entered := if sum in hashMap then hashMap else hashMap[sum := []];
    var after := entered[sum := entered[sum] + [names[i]]];
    assert after.Keys == hashMap.Keys + {sum};
    forall c | c in after
      ensures after[c] == Group(d, k, names[..i + 1], c)
    {
      if c != sum {
        assert Group(d, k, names[..i], c) + [] == Group(d, k, names[..i], c);
      }
    }
  }

  lemma DroppedNone(d: Dir, k: Kind, names: seq<Name>)
    requires AreMaps(d, k, names)
    ensures Dropped(d, k, names, {}) == {}
  {
  }

  lemma DroppedMore(d: Dir, k: Kind, names: seq<Name>, contents: set<Content>, c: Content)
    requires AreMaps(d, k, names)
    ensures Dropped(d, k, names, contents + {c}) == Dropped(d, k, names, contents) + Dropped(d, k, names, {c})
  {
  }

  lemma KeyHasGroup(d: Dir, k: Kind, names: seq<Name>, c: Content)
    requires AreMaps(d, k, names) && c in Contents(d, k, names)
    ensures Group(d, k, names, c) != []
  {
    GroupMembers(d, k, names, c);
    var n :| n in names && MapOf(d, k, n) == c;
    assert n in Group(d, k, names, c);
  }

  lemma DroppedMember(d: Dir, k: Kind, names: seq<Name>, c: Content, n: Name)
    requires AreMaps(d, k, names) && Group(d, k, names, c) != []
    ensures n in Dropped(d, k, names, {c}) <==> n in Group(d, k, names, c) && n != Survivor(d, k, names, c)
  {
    GroupMembers(d, k, names, c);
  }

  /** Of the testcases with map `c`, all but the survivor are dropped. */
  lemma DroppedOf(d: Dir, k: Kind, names: seq<Name>, c: Content, min: nat)
    requires AreMaps(d, k, names)
    requires min < |Group(d, k, names, c)| && Group(d, k, names, c)[min] == FirstFewest(Group(d, k, names, c))
    ensures Among(Group(d, k, names, c)[..min] + Group(d, k, names, c)[min + 1..]) == Dropped(d, k, names, {c})
  {
    var g := Group(d, k, names, c);
    GroupMembers(d, k, names, c);
    AmongOthers(g, min);
    forall n
      ensures n in Dropped(d, k, names, {c}) <==> n in g && n != g[min]
    {
      DroppedMember(d, k, names, c, n);
    }
    hide Dropped;
  }

  /** The directory after a run. */
  function Deduplicated(d: Dir, k: Kind, names: seq<Name>, stamp: Content): Dir
    requires forall n :: n in names ==> File(k, n) in d
  {
    Deletion(d, Dropped(d, k, names, Contents(d, k, names)), stamp)
  }

  /** A testcase keeps all its files, or loses all of them for a tombstone. */
  lemma FateOfTestcase(d: Dir, k: Kind, names: seq<Name>, stamp: Content, i: nat, f: File)
    requires AreMaps(d, k, names) && i < |names| && f.name == names[i]
    ensures var after := Deduplicated(d, k, names, stamp);
            if Survives(d, k, names, i) then (f in after <==> f in d) && (f in d ==> after[f] == d[f])
            else (f in after <==> f.kind.Deleted?) && (f in after ==> after[f] == stamp)
  {
    OneSurvivorPerMap(d, k, names, i);
    assert names[i] in names;
    assert names[i] in Dropped(d, k, names, Contents(d, k, names)) <==> !Survives(d, k, names, i);
    assert f.kind.Deleted? ==> f == File(Deleted, names[i]);
  }

  /** A testcase without a map of this kind in the list keeps its files. */
  lemma OthersUntouched(d: Dir, k: Kind, names: seq<Name>, stamp: Content, f: File)
    requires AreMaps(d, k, names) && f.name !in names
    ensures var after := Deduplicated(d, k, names, stamp);
            (f in after <==> f in d) && (f in d ==> after[f] == d[f])
  {
    assert f.name !in Dropped(d, k, names, Contents(d, k, names));
  }

  /** The maps of these testcases that are there, in listing order. */
  function MapsThere(d: Dir, k: Kind, names: seq<Name>): seq<Content> {
    if names == [] then []
    else
      MapsThere(d, k, names[..|names| - 1])
      + (if File(k, names[|names| - 1]) in d then [d[File(k, names[|names| - 1])]] else [])
  }

  lemma {:induction false} MapsThereAre(d: Dir, k: Kind, names: seq<Name>)
    ensures forall c :: c in MapsThere(d, k, names) <==> exists n :: n in names && File(k, n) in d && d[File(k, n)] == c
  {
    if names != [] {
      var rest, n := names[..|names| - 1], names[|names| - 1];
      MapsThereAre(d, k, rest);
      assert names == rest + [n];
      forall c
        ensures c in MapsThere(d, k, names) <==> exists n :: n in names && File(k, n) in d && d[File(k, n)] == c
      {
        assert c in MapsThere(d, k, names) <==>
          c in MapsThere(d, k, rest) || (File(k, n) in d && d[File(k, n)] == c);
      }
    }
  }

  /** A run loses no map and adds none. */
  lemma MapsKept(d: Dir, k: Kind, names: seq<Name>, stamp: Content, c: Content)
    requires AreMaps(d, k, names)
    ensures c in MapsThere(Deduplicated(d, k, names, stamp), k, names) <==> c in MapsThere(d, k, names)
  {
    hide MapsThere, Deduplicated, Survives;
    var after := Deduplicated(d, k, names, stamp);
    MapsThereAre(d, k, names);
    MapsThereAre(after, k, names);
    if c in MapsThere(d, k, names) {
      KeyHasGroup(d, k, names, c);
      var i := SurvivorOf(d, k, names, c);
      FateOfTestcase(d, k, names, stamp, i, File(k, names[i]));
    }
    if c in MapsThere(after, k, names) {
      var n :| n in names && File(k, n) in after && after[File(k, n)] == c;
      var i :| 0 <= i < |names| && names[i] == n;
      FateOfTestcase(d, k, names, stamp, i, File(k, n));
    }
  }

  /** The union of the maps, and so the number of covered locations, is what it was. */
  lemma UnionKept(d: Dir, k: Kind, names: seq<Name>, stamp: Content, size: nat)
    requires AreMaps(d, k, names) && names != [] && Sized(MapsThere(d, k, names), size)
    ensures var before, after := MapsThere(d, k, names), MapsThere(Deduplicated(d, k, names, stamp), k, names);
            && before != [] && after != [] && Sized(after, size)
            && Union(after, size) == Union(before, size)
            && NonZero(Union(after, size)) == NonZero(Union(before, size))
  {
    hide Deduplicated;
    var before, after := MapsThere(d, k, names), MapsThere(Deduplicated(d, k, names, stamp), k, names);
    forall c
      ensures c in after <==> c in before
    {
      MapsKept(d, k, names, stamp, c);
    }
    var c := MapOf(d, k, names[0]);
    MapsThereAre(d, k, names);
    assert names[0] in names;
    assert c in before && c in after;
    SizedLike(before, after, size);
    UnionOfSameMaps(after, before, size);
  }

  lemma SizedLike(before: seq<Content>, after: seq<Content>, size: nat)
    requires Sized(before, size) && forall c :: c in after ==> c in before
    ensures Sized(after, size)
  {
    forall i | 0 <= i < |after|
      ensures |after[i]| == size
    {
      assert after[i] in before;
    }
  }

  class Engine {
    const dir: Directory
    const kind: Kind
    const names: seq<Name>
    const stamp: Content

    constructor (dir: Directory, kind: Kind, names: seq<Name>, stamp: Content)
      ensures this.dir == dir && this.kind == kind && this.names == names && this.stamp == stamp
    {
      this.dir, this.kind, this.names, this.stamp := dir, kind, names, stamp;
    }

    /** `_delete_tcs`: first all the tombstones, then the files. */
    method DeleteTcs(testcases: seq<Name>)
      modifies dir
      ensures dir.files == Deletion(old(dir.files), Among(testcases), stamp)
    {
      hide Without;
      var i := 0;
      while i < |testcases|
        invariant 0 <= i <= |testcases|
        invariant dir.files == Marked(old(dir.files), Among(testcases[..i]), stamp)
      {
        MarkedNext(old(dir.files), testcases, i, stamp);
        dir.files := dir.files[File(Deleted, testcases[i]) := stamp];
        i := i + 1;
      }
      assert testcases[..i] == testcases;
      i := 0;
      while i < |testcases|
        invariant 0 <= i <= |testcases|
        invariant dir.files == Cleared(Marked(old(dir.files), Among(testcases), stamp), Among(testcases[..i]))
      {
        ClearedNext(Marked(old(dir.files), Among(testcases), stamp), testcases, i);
        dir.RemoveFiles(testcases[i], METADATA);
        i := i + 1;
      }
      assert testcases[..i] == testcases;
    }

    /**
     The first loop of `run`: the testcases of each map, in listing order. Not ok is the exception on a missing
     file.
     */
    method FillHashMap() returns (ok: bool, hashMap: map<Content, seq<Name>>)
      requires MapList(kind, names)
      ensures ok <==> AreMaps(dir.files, kind, names)
      ensures ok ==> Grouped(dir.files, kind, names, hashMap)
    {
      hide Grouped, Group, Contents;
      hashMap := map[];
      var i := 0;
      GroupedNone(dir.files, kind);
      while i < |names|
        invariant 0 <= i <= |names|
        invariant AreMaps(dir.files, kind, names[..i])
        invariant Grouped(dir.files, kind, names[..i], hashMap)
      {
        var n := names[i];
        if File(kind, n) !in dir.files {
          return false, hashMap;
        }
        var sum := MapOf(dir.files, kind, n);
        assert names[..i + 1][..i] == names[..i] && names[..i + 1][..i + 1] == names[..i + 1];
        GroupedNext(dir.files, kind, names[..i + 1], i, hashMap);
        if sum !in hashMap {
          hashMap := hashMap[sum := []];
        }
        hashMap := hashMap[sum := hashMap[sum] + [n]];
        i := i + 1;
      }
      assert names[..i] == names;
      ok := true;
    }

    /** `ancestor_cnts.index(min(ancestor_cnts))`. */
    method MinIndex(group: seq<Name>) returns (min: nat)
      requires group != []
      ensures min < |group| && group[min] == FirstFewest(group)
    {
      min := 0;
      var i := 1;
      while i < |group|
        invariant 1 <= i <= |group| && 0 <= min < i
        invariant group[min] == FirstFewest(group[..i])
      {
        assert group[..i + 1][..i] == group[..i];
        if Ancestors(group[i]) < Ancestors(group[min]) {
          min := i;
        }
        i := i + 1;
      }
      assert group[..i] == group;
    }

    /**
     `run`; the maps may be gone through in any order. A listed file that is missing raises before anything is
     deleted.
     */
    method Run() returns (ok: bool)
      requires MapList(kind, names)
      modifies dir
      ensures ok <==> AreMaps(old(dir.files), kind, names)
      ensures dir.files == if ok then Deduplicated(old(dir.files), kind, names, stamp) else old(dir.files)
    {
      hide Deletion, Dropped, Contents, Group, FirstFewest;
      ghost var before := dir.files;
      var hashMap: map<Content, seq<Name>>;
      ok, hashMap := FillHashMap();
      if !ok {
        return;
      }
      var keys := hashMap.Keys;
      DroppedNone(before, kind, names);
      DeletionNone(before, stamp);
      assert hashMap.Keys - keys == {};
      while keys != {}
        invariant keys <= hashMap.Keys
        invariant dir.files == Deletion(before, Dropped(before, kind, names, hashMap.Keys - keys), stamp)
        decreases keys
      {
        var c :| c in keys;
        KeyHasGroup(before, kind, names, c);
        var group := hashMap[c];
        var min := MinIndex(group);
        DroppedOf(before, kind, names, c, min);
        DroppedMore(before, kind, names, hashMap.Keys - keys, c);
        DeletionTwice(before, Dropped(before, kind, names, hashMap.Keys - keys),
          Dropped(before, kind, names, {c}), stamp);
        DeleteTcs(group[..min] + group[min + 1..]);
        assert hashMap.Keys - (keys - {c}) == (hashMap.Keys - keys) + {c};
        keys := keys - {c};
      }
      assert hashMap.Keys - keys == hashMap.Keys;
    }
  }
}
