/**
 What the corpus minimisers do to PM coverage.
 Source: src/pmfuzz/stages/dedup.py with src/pmfuzz/tools/pmfuzz-cmin.
 */
module CorpusCoverage {
  import opened Names
  import opened FileNames
  import opened Coverage
  import opened Corpus
  import opened CorpusRuns
  import opened Cmin

  /** The PM maps kept in a directory. */
  function Maps(d: Dir): set<Content> {
    set f | f in d && f.kind.PmMap? :: d[f]
  }

  /** The map directory handed to the minimiser, in some listing order, for the corpus in `d`. */
  ghost predicate ListsMaps(dir: seq<Listed>, d: Dir) {
    && IsListing(dir)
    && (forall e :: e in dir && e.kind.PmMap? ==> File(PmMap, e.name) in d && d[File(PmMap, e.name)] == e.content)
    && (forall n :: File(PmMap, n) in d ==> Listed(PmMap, n, d[File(PmMap, n)]) in dir)
  }

  /** The testcase's PM map is the first listed with its content. */
  ghost predicate FirstListed(dir: seq<Listed>, n: Name) {
    exists i :: 0 <= i < |dir| && dir[i].kind.PmMap? && dir[i].name == n
                && forall j :: 0 <= j < i && dir[j].kind.PmMap? ==> dir[j].content != dir[i].content
  }

  ghost predicate IsListed(dir: seq<Listed>, n: Name) {
    exists i :: 0 <= i < |dir| && dir[i].kind.PmMap? && dir[i].name == n
  }

  lemma {:induction false} DupsIff(dir: seq<Listed>, i: nat)
    requires IsListing(dir) && i < |dir| && dir[i].kind.PmMap?
    ensures dir[i].name in Dups(dir) <==>
            exists j :: 0 <= j < i && dir[j].kind.PmMap? && dir[j].content == dir[i].content
  {
    var rest, last := dir[..|dir| - 1], dir[|dir| - 1];
    if i < |dir| - 1 {
      DupsIff(rest, i);
      assert rest[i] == dir[i];
      assert forall j :: 0 <= j < i ==> rest[j] == dir[j];
    } else {
      DupsAreListed(rest);
      assert dir[i].name !in Dups(rest);
      if last.content in PmContents(rest) {
        var e :| e in rest && e.kind.PmMap? && e.content == last.content;
        var j :| 0 <= j < |rest| && rest[j] == e;
        assert dir[j] == e;
      }
      forall j | 0 <= j < i && dir[j].kind.PmMap? && dir[j].content == last.content
        ensures last.content in PmContents(rest)
      {
        assert rest[j] == dir[j] && rest[j] in rest;
      }
    }
  }

  /** Exactly the listed testcases that are not first with their map are dropped. */
  lemma DroppedIff(dir: seq<Listed>, n: Name)
    requires IsListing(dir)
    ensures n in Dups(dir) <==> IsListed(dir, n) && !FirstListed(dir, n)
  {
    DupsAreListed(dir);
    if IsListed(dir, n) {
      var i :| 0 <= i < |dir| && dir[i].kind.PmMap? && dir[i].name == n;
      DupsIff(dir, i);
    }
  }

  /** What is dropped are testcases of the corpus, if each of its maps has one. */
  lemma DropsTestcases(dir: seq<Listed>, d: Dir)
    requires ListsMaps(dir, d) && forall n :: File(PmMap, n) in d ==> File(Testcase, n) in d
    ensures Dups(dir) <= Testcases(d)
  {
    hide Dups;
    DupsAreListed(dir);
    forall n | n in Dups(dir)
      ensures n in Testcases(d)
    {
      assert File(PmMap, n) in d && File(Testcase, n) in d;
    }
  }

  // ---------- The global minimiser ----------

  lemma ListedMaps(dir: seq<Listed>, d: Dir)
    requires ListsMaps(dir, d)
    ensures PmContents(dir) == Maps(d)
    ensures forall n :: File(PmMap, n) in d <==> IsListed(dir, n)
  {
    forall n
      ensures File(PmMap, n) in d <==> IsListed(dir, n)
    {
      if File(PmMap, n) in d {
        var i :| 0 <= i < |dir| && dir[i] == Listed(PmMap, n, d[File(PmMap, n)]);
      }
    }
    forall c
      ensures c in PmContents(dir) <==> c in Maps(d)
    {
      if c in PmContents(dir) {
        var e :| e in dir && e.kind.PmMap? && e.content == c;
        assert File(PmMap, e.name) in d;
      }
      if c in Maps(d) {
        var f :| f in d && f.kind.PmMap? && d[f] == c;
        assert f == File(PmMap, f.name);
      }
    }
  }

  /** `minimize_corpus_gbl` loses no PM map of the global store, and no two testcases that remain have the same one. */
  lemma GlobalMinimiserKeepsMaps(gbl: Dir, dir: seq<Listed>, stamp: Content)
    requires ListsMaps(dir, gbl) && Tombstones(gbl)
    ensures Dups(dir) <= Testcases(gbl)
    ensures var g := MinimizedGlobal(gbl, Dups(dir), stamp);
            && Maps(g) == Maps(gbl)
            && (forall n, m :: n != m && File(PmMap, n) in g && File(PmMap, m) in g ==>
                  g[File(PmMap, n)] != g[File(PmMap, m)])
  {
    var g := MinimizedGlobal(gbl, Dups(dir), stamp);
    DropsTestcases(dir, gbl);
    ListedMaps(dir, gbl);
    forall n
      ensures File(PmMap, n) in g <==> File(PmMap, n) in gbl && n !in Dups(dir)
      ensures File(PmMap, n) in g ==> g[File(PmMap, n)] == gbl[File(PmMap, n)]
    {
      MinimizedGlobalFile(gbl, Dups(dir), stamp, File(PmMap, n));
    }
    hide MinimizedGlobal;
    forall c | c in Maps(gbl)
      ensures c in Maps(g)
    {
      var e := KeptCover(dir, c);
      assert File(PmMap, e.name) in g;
    }
    forall n, m | n != m && File(PmMap, n) in g && File(PmMap, m) in g
      ensures g[File(PmMap, n)] != g[File(PmMap, m)]
    {
      DifferentMaps(dir, gbl, n, m);
    }
  }

  lemma DifferentMaps(dir: seq<Listed>, d: Dir, n: Name, m: Name)
    requires ListsMaps(dir, d) && n != m && File(PmMap, n) in d && File(PmMap, m) in d
    requires n !in Dups(dir) && m !in Dups(dir)
    ensures d[File(PmMap, n)] != d[File(PmMap, m)]
  {
    var i :| 0 <= i < |dir| && dir[i] == Listed(PmMap, n, d[File(PmMap, n)]);
    var j :| 0 <= j < |dir| && dir[j] == Listed(PmMap, m, d[File(PmMap, m)]);
    if i < j {
      KeptAreDistinct(dir, i, j);
    } else {
      KeptAreDistinct(dir, j, i);
    }
  }

  /** Hence the union of PM maps and its nonzero bytes are unchanged. */
  lemma GlobalCoverageKept(
    gbl: Dir, dir: seq<Listed>, stamp: Content, before: seq<Content>, after: seq<Content>, size: nat)
    requires ListsMaps(dir, gbl) && Tombstones(gbl)
    requires before != [] && Sized(before, size) && forall m :: m in before <==> m in Maps(gbl)
    requires forall m :: m in after <==> m in Maps(MinimizedGlobal(gbl, Dups(dir), stamp))
    ensures after != [] && Sized(after, size) && Union(before, size) == Union(after, size)
  {
    GlobalMinimiserKeepsMaps(gbl, dir, stamp);
    assert before[0] in before;
    forall i | 0 <= i < |after|
      ensures |after[i]| == size
    {
      assert after[i] in after && after[i] in before;
    }
    UnionOfSameMaps(before, after, size);
  }

  // ---------- The local minimiser ----------

  /** Coverage of the global store and the stage's own testcases together. */
  function Covered(gbl: Dir, tc: Dir): set<Content> {
    Maps(gbl) + Maps(tc)
  }

  /** The holder is not up for dropping under this listing: it is listed first, or not listed. */
  ghost predicate Survives(dir: seq<Listed>, n: Name) {
    !IsListed(dir, n) || FirstListed(dir, n)
  }

  predicate Holds(gbl: Dir, tc: Dir, n: Name, c: Content) {
    (File(PmMap, n) in gbl && gbl[File(PmMap, n)] == c) || (File(PmMap, n) in tc && tc[File(PmMap, n)] == c)
  }

  lemma CoveredHolds(gbl: Dir, tc: Dir, c: Content)
    ensures c in Covered(gbl, tc) <==> exists n :: Holds(gbl, tc, n, c)
  {
    if c in Maps(gbl) {
      var f :| f in gbl && f.kind.PmMap? && gbl[f] == c;
      assert f == File(PmMap, f.name) && Holds(gbl, tc, f.name, c);
    } else if c in Maps(tc) {
      var f :| f in tc && f.kind.PmMap? && tc[f] == c;
      assert f == File(PmMap, f.name) && Holds(gbl, tc, f.name, c);
    }
  }

  lemma HoldsAfter(gbl: Dir, tc: Dir, dropped: set<Name>, stamp: Content, n: Name, c: Content)
    ensures Holds(BuriedGlobal(gbl, dropped, stamp), MinimizedStage(tc, dropped), n, c) <==>
            Holds(gbl, tc, n, c) && n !in dropped
  {
    BuriedGlobalFile(gbl, dropped, stamp, File(PmMap, n));
  }

  /** The PM coverage of the global store and the stage after a local minimisation. */
  function CoveredAfter(gbl: Dir, tc: Dir, dir: seq<Listed>, stamp: Content): set<Content> {
    Covered(BuriedGlobal(gbl, Dups(dir), stamp), MinimizedStage(tc, Dups(dir)))
  }

  /** A map is still covered after a local minimisation exactly when some holder of it survives. */
  lemma CoveredAfterIff(gbl: Dir, tc: Dir, dir: seq<Listed>, stamp: Content, c: Content)
    requires IsListing(dir)
    ensures c in CoveredAfter(gbl, tc, dir, stamp) <==> exists n :: Holds(gbl, tc, n, c) && Survives(dir, n)
    ensures c in CoveredAfter(gbl, tc, dir, stamp) ==> c in Covered(gbl, tc)
  {
    var g, t := BuriedGlobal(gbl, Dups(dir), stamp), MinimizedStage(tc, Dups(dir));
    CoveredHolds(g, t, c);
    CoveredHolds(gbl, tc, c);
    hide Covered, Holds;
    forall n
      ensures Holds(g, t, n, c) <==> Holds(gbl, tc, n, c) && Survives(dir, n)
    {
      HoldsAfter(gbl, tc, Dups(dir), stamp, n, c);
      DroppedIff(dir, n);
    }
  }

  /** A holder of the map that the minimiser does not compare at all: `seen` is what it compares. */
  ghost predicate HeldOutside(gbl: Dir, tc: Dir, seen: Dir, c: Content) {
    exists n :: Holds(gbl, tc, n, c) && File(PmMap, n) !in seen
  }

  /** Every testcase compared under the map `d` holds `c`, in the global store or the stage. */
  ghost predicate AllHold(gbl: Dir, tc: Dir, seen: Dir, d: Content, c: Content) {
    forall n :: File(PmMap, n) in seen && seen[File(PmMap, n)] == d ==> Holds(gbl, tc, n, c)
  }

  /** Nothing the minimiser may pick among testcases with the same map can lose `c`. */
  ghost predicate Secure(gbl: Dir, tc: Dir, seen: Dir, c: Content) {
    || HeldOutside(gbl, tc, seen, c)
    || exists d :: d in Maps(seen) && AllHold(gbl, tc, seen, d, c)
  }

  lemma SecureSurvives(gbl: Dir, tc: Dir, seen: Dir, dir: seq<Listed>, stamp: Content, c: Content)
    requires ListsMaps(dir, seen) && Secure(gbl, tc, seen, c)
    ensures c in CoveredAfter(gbl, tc, dir, stamp)
  {
    ListedMaps(dir, seen);
    CoveredAfterIff(gbl, tc, dir, stamp, c);
    if HeldOutside(gbl, tc, seen, c) {
      var n :| Holds(gbl, tc, n, c) && File(PmMap, n) !in seen;
      assert Survives(dir, n);
    } else {
      var d :| d in Maps(seen) && AllHold(gbl, tc, seen, d, c);
      var e := FirstWith(dir, d);
      assert File(PmMap, e.name) in seen && seen[File(PmMap, e.name)] == d;
      assert Survives(dir, e.name);
    }
  }

  // ---------- The listing that loses a map that is not secure ----------

  /** Testcases whose compared map is listed, those in `names` only. */
  ghost predicate ListsOnly(dir: seq<Listed>, seen: Dir, names: set<Name>) {
    && IsListing(dir)
    && (forall e :: e in dir ==> e.kind.PmMap? && e.name in names)
    && (forall e :: e in dir ==> File(PmMap, e.name) in seen && seen[File(PmMap, e.name)] == e.content)
    && (forall n :: n in names ==> File(PmMap, n) in seen && Listed(PmMap, n, seen[File(PmMap, n)]) in dir)
  }

  lemma {:induction false} ListingOf(seen: Dir, names: set<Name>) returns (dir: seq<Listed>)
    requires forall n :: n in names ==> File(PmMap, n) in seen
    ensures ListsOnly(dir, seen, names)
  {
    if names == {} {
      dir := [];
    } else {
      var n :| n in names;
      var rest := ListingOf(seen, names - {n});
      dir := rest + [Listed(PmMap, n, seen[File(PmMap, n)])];
      OneMoreListed(rest, seen, names - {n}, n);
    }
  }

  lemma OneMoreListed(rest: seq<Listed>, seen: Dir, names: set<Name>, n: Name)
    requires ListsOnly(rest, seen, names) && n !in names && File(PmMap, n) in seen
    ensures ListsOnly(rest + [Listed(PmMap, n, seen[File(PmMap, n)])], seen, names + {n})
  {
    var last := Listed(PmMap, n, seen[File(PmMap, n)]);
    var dir := rest + [last];
    forall i, j | 0 <= i < j < |dir|
      ensures dir[i].kind != dir[j].kind || dir[i].name != dir[j].name
    {
      assert i < |rest| ==> rest[i] in rest;
    }
    assert last in dir;
    assert forall e :: e in dir <==> e in rest || e == last;
  }

  /** First a listing of some testcases, then one of the others. */
  lemma TwoListings(front: seq<Listed>, back: seq<Listed>, seen: Dir, a: set<Name>, b: set<Name>)
    requires ListsOnly(front, seen, a) && ListsOnly(back, seen, b) && a * b == {}
    requires forall n :: File(PmMap, n) in seen ==> n in a || n in b
    ensures ListsMaps(front + back, seen)
  {
    var dir := front + back;
    forall i, j | 0 <= i < j < |dir|
      ensures dir[i].kind != dir[j].kind || dir[i].name != dir[j].name
    {
      if j < |front| {
        assert dir[i] == front[i] && dir[j] == front[j];
      } else if |front| <= i {
        assert dir[i] == back[i - |front|] && dir[j] == back[j - |front|];
      } else {
        assert dir[i] == front[i] && front[i] in front && dir[j] == back[j - |front|] && back[j - |front|] in back;
        assert dir[i].name in a && dir[j].name in b && dir[j].name !in a * b;
      }
    }
    assert forall e :: e in dir <==> e in front || e in back;
  }

  /** No testcase of the second listing is first with its map if the first listing has every map. */
  lemma BackIsNotFirst(front: seq<Listed>, back: seq<Listed>, seen: Dir, a: set<Name>, b: set<Name>, n: Name, m: Name)
    requires ListsOnly(front, seen, a) && ListsOnly(back, seen, b) && a * b == {}
    requires n in b && m in a && seen[File(PmMap, n)] == seen[File(PmMap, m)]
    ensures IsListed(front + back, n) && !FirstListed(front + back, n)
  {
    var dir := front + back;
    var x, y := Listed(PmMap, m, seen[File(PmMap, m)]), Listed(PmMap, n, seen[File(PmMap, n)]);
    var i :| 0 <= i < |front| && front[i] == x;
    var j :| 0 <= j < |back| && back[j] == y;
    assert dir[i] == x && dir[|front| + j] == y;
    assert n !in a by {
      assert n !in a * b;
    }
    forall k | 0 <= k < |front|
      ensures dir[k].name != n
    {
      assert dir[k] == front[k] && front[k] in front;
    }
    forall k | |front| <= k < |dir| && dir[k].name == n
      ensures dir[i].content == dir[k].content
    {
      assert dir[k] == back[k - |front|] && back[k - |front|] in back;
    }
  }

  /** If a map is not secure, listing first what does not hold it loses it. */
  lemma LosingListing(gbl: Dir, tc: Dir, seen: Dir, stamp: Content, c: Content) returns (dir: seq<Listed>)
    requires !Secure(gbl, tc, seen, c)
    ensures ListsMaps(dir, seen) && c !in CoveredAfter(gbl, tc, dir, stamp)
  {
    var all := set f | f in seen && f.kind.PmMap? :: f.name;
    var b := set n | n in all && Holds(gbl, tc, n, c);
    var a := all - b;
    assert forall n :: n in all <==> File(PmMap, n) in seen;
    var front := ListingOf(seen, a);
    var back := ListingOf(seen, b);
    dir := front + back;
    TwoListings(front, back, seen, a, b);
    CoveredAfterIff(gbl, tc, dir, stamp, c);
    hide CoveredAfter, Survives, ListsOnly, ListsMaps, FirstListed, IsListed;
    forall n | Holds(gbl, tc, n, c)
      ensures !Survives(dir, n)
    {
      assert n in b;
      var d := seen[File(PmMap, n)];
      assert d in Maps(seen) && !AllHold(gbl, tc, seen, d, c);
      var m :| File(PmMap, m) in seen && seen[File(PmMap, m)] == d && !Holds(gbl, tc, m, c);
      BackIsNotFirst(front, back, seen, a, b, n, m);
      NotSurviving(dir, n);
    }
  }

  lemma NotSurviving(dir: seq<Listed>, n: Name)
    requires IsListed(dir, n) && !FirstListed(dir, n)
    ensures !Survives(dir, n)
  {
  }

  /**
   `minimize_corpus_lcl` compares the maps of the local store and the stage, `seen`, but removes from the
   stage and the global store. It keeps their PM coverage whatever the order in which it lists the maps
   exactly when every map covered there has a holder that is not compared, or is held by all testcases that
   are compared under some one map. Like its input directory it has a testcase for each map, in every reachable
   state, and drops only those.
   */
  lemma LocalMinimiserKeepsMapsIff(gbl: Dir, loc: Dir, tc: Dir, stamp: Content)
    requires forall n :: File(PmMap, n) in loc + tc ==> File(Testcase, n) in loc + tc
    ensures forall dir :: ListsMaps(dir, loc + tc) ==> Dups(dir) <= Testcases(loc + tc)
    ensures (forall dir :: ListsMaps(dir, loc + tc) ==> CoveredAfter(gbl, tc, dir, stamp) == Covered(gbl, tc))
            <==> forall c :: c in Covered(gbl, tc) ==> Secure(gbl, tc, loc + tc, c)
  {
    hide ListsMaps, CoveredAfter, Covered, Secure, Dups;
    forall dir | ListsMaps(dir, loc + tc)
      ensures Dups(dir) <= Testcases(loc + tc)
    {
      DropsTestcases(dir, loc + tc);
    }
    if forall c :: c in Covered(gbl, tc) ==> Secure(gbl, tc, loc + tc, c) {
      forall dir | ListsMaps(dir, loc + tc)
        ensures CoveredAfter(gbl, tc, dir, stamp) == Covered(gbl, tc)
      {
        SecureKept(gbl, tc, loc + tc, dir, stamp);
      }
    } else {
      var c :| c in Covered(gbl, tc) && !Secure(gbl, tc, loc + tc, c);
      var dir := LosingListing(gbl, tc, loc + tc, stamp, c);
      assert ListsMaps(dir, loc + tc);
    }
  }

  /** In every reachable state each map that the minimiser compares belongs to a testcase it was given. */
  lemma MapsHaveTestcases(events: seq<Event>)
    requires Legal(events)
    ensures var seen := Run(events).loc + Run(events).tc2;
            forall n :: File(PmMap, n) in seen ==> File(Testcase, n) in seen
  {
    hide Run;
    InvAlways(events);
  }

  lemma SecureKept(gbl: Dir, tc: Dir, seen: Dir, dir: seq<Listed>, stamp: Content)
    requires ListsMaps(dir, seen) && forall c :: c in Covered(gbl, tc) ==> Secure(gbl, tc, seen, c)
    ensures CoveredAfter(gbl, tc, dir, stamp) == Covered(gbl, tc)
  {
    hide CoveredAfter, Covered, Secure;
    assert IsListing(dir);
    forall c
      ensures c in CoveredAfter(gbl, tc, dir, stamp) <==> c in Covered(gbl, tc)
    {
      CoveredAfterIff(gbl, tc, dir, stamp, c);
      if c in Covered(gbl, tc) {
        SecureSurvives(gbl, tc, seen, dir, stamp, c);
      }
    }
  }

  lemma FirstWith(dir: seq<Listed>, c: Content) returns (e: Listed)
    requires IsListing(dir) && c in PmContents(dir)
    ensures e in dir && e.kind.PmMap? && e.content == c && FirstListed(dir, e.name)
  {
    e := KeptCover(dir, c);
    DroppedIff(dir, e.name);
    var i :| 0 <= i < |dir| && dir[i] == e;
  }

  /** As long as no map of the local store has been removed from the global store, no coverage is lost. */
  lemma LocalMinimiserSafeWhileComplete(s: State, dir: seq<Listed>, stamp: Content)
    requires Inv(s) && ListsMaps(dir, s.loc + s.tc2)
    requires forall n :: File(PmMap, n) in s.loc ==> File(PmMap, n) in s.gbl
    requires forall n :: File(PmMap, n) in s.tc2 && File(PmMap, n) in s.gbl ==>
               s.tc2[File(PmMap, n)] == s.gbl[File(PmMap, n)]
    ensures CoveredAfter(s.gbl, s.tc2, dir, stamp) == Covered(s.gbl, s.tc2)
  {
    var seen := s.loc + s.tc2;
    forall c | c in Covered(s.gbl, s.tc2)
      ensures Secure(s.gbl, s.tc2, seen, c)
    {
      CoveredHolds(s.gbl, s.tc2, c);
      var n :| Holds(s.gbl, s.tc2, n, c);
      if File(PmMap, n) in seen {
        assert seen[File(PmMap, n)] == c;
        assert c in Maps(seen) && AllHold(s.gbl, s.tc2, seen, c, c);
      }
    }
    SecureKept(s.gbl, s.tc2, seen, dir, stamp);
  }

  // ---------- A run that loses coverage ----------

  /** The directory holds exactly two testcases, each with its map, the same PM map and its image. */
  ghost predicate HoldsBoth(d: Dir, a: Name, b: Name, c: Content) {
    && (forall k, n :: File(k, n) in d <==> (n == a || n == b) && LocalKind(k))
    && (forall n :: File(PmMap, n) in d ==> d[File(PmMap, n)] == c)
  }

  lemma TwinFiles(a: Name, b: Name, c: Content, tc: Dir)
    requires tc == WithTestcase(WithTestcase(map[], a, Twin(c)), b, Twin(c))
    ensures forall k, n :: File(k, n) in tc <==> (n == a || n == b) && CopiedKind(k)
    ensures forall n :: File(PmMap, n) in tc ==> tc[File(PmMap, n)] == c
    ensures Testcases(tc) == {a, b}
  {
    var t1 := WithTestcase(map[], a, Twin(c));
    assert forall k, n :: File(k, n) in t1 <==> n == a && CopiedKind(k);
    assert forall n :: File(PmMap, n) in t1 ==> t1[File(PmMap, n)] == c;
    assert File(Testcase, a) in tc && File(Testcase, b) in tc;
  }

  lemma CollectBoth(a: Name, b: Name, c: Content, tc: Dir, img: Dir)
    requires tc == WithTestcase(WithTestcase(map[], a, Twin(c)), b, Twin(c))
    requires img == map[File(CmprImage, a) := [], File(CmprImage, b) := []]
    ensures ImagesThere(tc, img) && HoldsBoth(UpdatedGlobal(map[], tc, img, Testcases(tc)), a, b, c)
  {
    TwinFiles(a, b, c, tc);
    hide WithTestcase, Testcases, UpdatedGlobal;
    assert File(CmprImage, a) in img && File(CmprImage, b) in img;
    assert forall k, n :: File(k, n) in img <==> (n == a || n == b) && k.CmprImage?;
    var g := UpdatedGlobal(map[], tc, img, {a, b});
    forall k, n
      ensures File(k, n) in g <==> (n == a || n == b) && LocalKind(k)
    {
      UpdatedGlobalFile(map[], tc, img, {a, b}, File(k, n));
    }
    forall n | File(PmMap, n) in g
      ensures g[File(PmMap, n)] == c
    {
      assert File(PmMap, n) in tc;
      CopiedMap(tc, img, {a, b}, n);
    }
  }

  lemma CopiedMap(tc: Dir, img: Dir, names: set<Name>, n: Name)
    requires n in names && File(PmMap, n) in tc
    ensures var g := UpdatedGlobal(map[], tc, img, names);
            File(PmMap, n) in g && g[File(PmMap, n)] == tc[File(PmMap, n)]
  {
  }

  /** A testcase with PM map `c`. */
  function Twin(c: Content): Found {
    Found([], Some([]), Some(c), Some([]))
  }

  lemma LocalBoth(gbl: Dir, a: Name, b: Name, c: Content, iter: nat)
    requires HoldsBoth(gbl, a, b, c) && Ancestors(a) + 1 == iter && Ancestors(b) + 1 == iter
    ensures forall n :: Selected(gbl, map[], iter, n) ==> Copyable(gbl, n)
    ensures HoldsBoth(UpdatedLocal(gbl, map[], iter, Testcases(gbl)), a, b, c)
  {
    assert File(Testcase, a) in gbl && File(Testcase, b) in gbl;
    assert Testcases(gbl) == {a, b};
  }

  lemma ListingOfTwo(loc: Dir, a: Name, b: Name, c: Content)
    requires HoldsBoth(loc, a, b, c) && a != b
    ensures var dir := [Listed(PmMap, a, c), Listed(PmMap, b, c)]; ListsMaps(dir, loc) && Dups(dir) == {b}
  {
    var x, y := Listed(PmMap, a, c), Listed(PmMap, b, c);
    var dir := [x, y];
    assert dir[..1] == [x] && [x][..0] == [];
    assert PmContents([]) == {} && x in [x];
    assert Dups([x]) == Dups([]) == {};
    assert PmContents([x]) == {c};
    assert x in dir && y in dir;
  }

  lemma BuryBoth(gbl: Dir, a: Name, b: Name, c: Content, stamp: Content)
    requires HoldsBoth(gbl, a, b, c) && a != b
    ensures c in Covered(gbl, map[])
    ensures Covered(BuriedGlobal(BuriedGlobal(gbl, {b}, stamp), {a}, stamp), map[]) == {}
  {
    var g := BuriedGlobal(gbl, {b}, stamp);
    var h := BuriedGlobal(g, {a}, stamp);
    assert Holds(gbl, map[], a, c);
    CoveredHolds(gbl, map[], c);
    forall x
      ensures x !in Covered(h, map[])
    {
      CoveredHolds(h, map[], x);
      forall n
        ensures !Holds(h, map[], n, x)
      {
        BuriedGlobalFile(gbl, {b}, stamp, File(PmMap, n));
        BuriedGlobalFile(g, {a}, stamp, File(PmMap, n));
      }
    }
  }

  /** Two testcases with the same PM map are collected in stage 1. */
  function TwinsCollected(c: Content): seq<Event> {
    [CollectRoot("1", Twin(c)), CollectRoot("2", Twin(c))]
  }

  lemma TwinsState(c: Content)
    ensures Legal(TwinsCollected(c))
    ensures var s := Run(TwinsCollected(c));
            && s == State(map[], s.tc1, s.img1, map[], map[], map[], 0, 0, {})
            && s.tc1 == WithTestcase(WithTestcase(map[], Root("1"), Twin(c)), Root("2"), Twin(c))
            && s.img1 == map[File(CmprImage, Root("1")) := [], File(CmprImage, Root("2")) := []]
  {
    FirstTwin(c);
    hide Run, Legal, WithTestcase;
    EmptyRun();
    RunSnoc([], CollectRoot("1", Twin(c)));
    RunSnoc([] + [CollectRoot("1", Twin(c))], CollectRoot("2", Twin(c)));
    assert TwinsCollected(c) == [] + [CollectRoot("1", Twin(c))] + [CollectRoot("2", Twin(c))];
  }

  lemma FirstTwin(c: Content)
    ensures File(Testcase, Root("2")) !in WithTestcase(map[], Root("1"), Twin(c))
  {
    assert "1"[0] != "2"[0];
  }

  lemma UpdateThenNext(s: State)
    requires ImagesThere(s.tc1, s.img1)
    ensures Enabled(s, UpdateGlobal1) && Enabled(Step(s, UpdateGlobal1), NextIteration)
    ensures var t := Step(Step(s, UpdateGlobal1), NextIteration);
            && t.gbl == UpdatedGlobal(s.gbl, s.tc1, s.img1, Testcases(s.tc1))
            && t.loc == map[] && t.tc2 == map[] && t.iter == s.iter + 1
  {
    hide UpdatedGlobal, ImagesThere, Testcases;
  }

  /** They reach the global store, and stage 2 starts. */
  lemma TwinsInGlobalStore(c: Content) returns (events: seq<Event>)
    ensures Legal(events)
    ensures var s := Run(events);
            HoldsBoth(s.gbl, Root("1"), Root("2"), c) && s.loc == map[] && s.tc2 == map[] && s.iter == 1
  {
    var e2 := TwinsCollected(c);
    TwinsState(c);
    CollectBoth(Root("1"), Root("2"), c, Run(e2).tc1, Run(e2).img1);
    hide Run, Legal, WithTestcase, UpdatedGlobal, ImagesThere, HoldsBoth, Testcases, Step, Enabled;
    UpdateThenNext(Run(e2));
    RunSnoc(e2, UpdateGlobal1);
    RunSnoc(e2 + [UpdateGlobal1], NextIteration);
    events := e2 + [UpdateGlobal1] + [NextIteration];
  }

  lemma UpdateLocalEnabled(s: State)
    requires s.iter >= 1
    ensures Enabled(s, UpdateLocal(UpdatedLocal(s.gbl, s.loc, s.iter, Testcases(s.gbl))))
  {
    WholeUpdateIsBetween(s.gbl, s.loc, s.iter);
  }

  /** Two testcases with the same PM map reach the local store of iteration 1. */
  lemma TwinsInLocalStore(c: Content) returns (events: seq<Event>)
    ensures Legal(events)
    ensures var s := Run(events);
            HoldsBoth(s.gbl, Root("1"), Root("2"), c) && HoldsBoth(s.loc, Root("1"), Root("2"), c) && s.tc2 == map[]
  {
    var before := TwinsInGlobalStore(c);
    var s := Run(before);
    LocalBoth(s.gbl, Root("1"), Root("2"), c, 1);
    UpdateLocalEnabled(s);
    hide Run, Legal, Enabled, HoldsBoth, Testcases, UpdatedLocal;
    var reached := UpdatedLocal(s.gbl, s.loc, s.iter, Testcases(s.gbl));
    RunSnoc(before, UpdateLocal(reached));
    events := before + [UpdateLocal(reached)];
  }

  lemma MinimiseTwice(events: seq<Event>, a: Name, b: Name)
    requires Legal(events) && File(Testcase, a) in Run(events).loc && File(Testcase, b) in Run(events).loc
    requires Run(events).tc2 == map[]
    ensures var end := events + [MinimizeLocal({b}, []), MinimizeLocal({a}, [])];
            && Run(events + [MinimizeLocal({b}, [])]).loc == Run(events).loc
            && Run(events + [MinimizeLocal({b}, [])]).tc2 == map[]
            && Legal(end) && Run(end).tc2 == map[]
            && Run(end).gbl == BuriedGlobal(BuriedGlobal(Run(events).gbl, {b}, []), {a}, [])
  {
    hide Run, Legal, BuriedGlobal;
    var s := Run(events);
    assert a in Testcases(s.loc) && b in Testcases(s.loc);
    RunSnoc(events, MinimizeLocal({b}, []));
    var e1 := events + [MinimizeLocal({b}, [])];
    assert MinimizedStage(map[], {b}) == map[] && MinimizedStage(map[], {a}) == map[];
    RunSnoc(e1, MinimizeLocal({a}, []));
    assert e1 + [MinimizeLocal({a}, [])] == events + [MinimizeLocal({b}, []), MinimizeLocal({a}, [])];
  }

  /** A run, and two listings for two local minimisations after it. */
  datatype Loss = Loss(events: seq<Event>, first: seq<Listed>, second: seq<Listed>) {
    function Start(): State {
      Run(events)
    }

    function Middle(): State {
      Run(events + [MinimizeLocal(Dups(first), [])])
    }

    function Minimised(): seq<Event> {
      events + [MinimizeLocal(Dups(first), []), MinimizeLocal(Dups(second), [])]
    }

    ghost predicate Possible() {
      && Legal(Minimised())
      && ListsMaps(first, Start().loc + Start().tc2) && ListsMaps(second, Middle().loc + Middle().tc2)
    }
  }

  /**
   Two local minimisations of one iteration can lose a PM map from the global store: the first drops one
   of two testcases with that map, the second lists them the other way round and drops the other, which
   it still finds in the local store.
   */
  lemma LocalMinimiserLosesCoverage(c: Content) returns (run: Loss)
    ensures run.Possible() && run.Start().tc2 == map[] && c in Covered(run.Start().gbl, map[])
    ensures Covered(Run(run.Minimised()).gbl, Run(run.Minimised()).tc2) == {}
  {
    var a, b := Root("1"), Root("2");
    assert a.id[0] != b.id[0];
    var events := TwinsInLocalStore(c);
    var s := Run(events);
    assert File(Testcase, a) in s.loc && File(Testcase, b) in s.loc;
    hide Run, Legal, BuriedGlobal, Dups, ListsMaps;
    run := Loss(events, [Listed(PmMap, a, c), Listed(PmMap, b, c)], [Listed(PmMap, b, c), Listed(PmMap, a, c)]);
    ListingOfTwo(s.loc, a, b, c);
    ListingOfTwo(s.loc, b, a, c);
    assert s.loc + map[] == s.loc;
    BuryBoth(s.gbl, a, b, c, []);
    MinimiseTwice(events, a, b);
  }
}
