/** The corpus operations of one stage, as they change the directories. Source: src/pmfuzz/stages/dedup.py. */
module DedupStage {
  import opened Names
  import opened FileNames
  import opened Coverage
  import opened Corpus
  import opened Listings

  class Directory {
    var files: Dir

    constructor ()
      ensures files == map[]
    {
      files := map[];
    }

    /** The testcases listed in the directory, in any order. */
    method ListTestcases() returns (list: seq<Name>)
      ensures Lists(list, Testcases(files))
    {
      list := [];
      var rest := Testcases(files);
      while rest != {}
        invariant rest <= Testcases(files)
        invariant Lists(list, Testcases(files) - rest)
        decreases rest
      {
        var n :| n in rest;
        list := list + [n];
        rest := rest - {n};
      }
      assert Testcases(files) - rest == Testcases(files);
    }

    /** `copypreserve` from another directory. */
    method CopyFrom(src: Directory, f: File)
      requires f in src.files
      modifies this
      ensures files == old(files)[f := old(src.files)[f]]
    {
      files := files[f := src.files[f]];
    }

    /** os.remove of each of these files of a testcase, where there is one. */
    method RemoveFiles(n: Name, kinds: seq<Kind>)
      modifies this
      ensures files == Without(old(files), n, kinds)
    {
      var i := 0;
      while i < |kinds|
        invariant 0 <= i <= |kinds|
        invariant files == Without(old(files), n, kinds[..i])
      {
        if File(kinds[i], n) in files {
          files := files - {File(kinds[i], n)};
        }
        WithoutNext(old(files), n, kinds, i);
        i := i + 1;
      }
      assert kinds[..i] == kinds;
    }
  }

  function Without(d: Dir, n: Name, kinds: seq<Kind>): Dir {
    map f | f in d && !(f.name == n && f.kind in kinds) :: d[f]
  }

  lemma WithoutNext(d: Dir, n: Name, kinds: seq<Kind>, i: nat)
    requires i < |kinds|
    ensures Without(d, n, kinds[..i + 1]) == Without(d, n, kinds[..i]) - {File(kinds[i], n)}
  {
    assert kinds[..i + 1] == kinds[..i] + [kinds[i]];
  }

  // ---------- What the operations leave, testcase by testcase ----------

  /** What `update_global` brings of a testcase that the global store neither has nor has buried. */
  lemma GlobalStoreGains(gbl: Dir, tc: Dir, img: Dir, n: Name)
    requires ImagesThere(tc, img) && File(Testcase, n) in tc
    requires File(Testcase, n) !in gbl && File(Deleted, n) !in gbl
    ensures File(CmprImage, n) in img
    ensures var g := UpdatedGlobal(gbl, tc, img, Testcases(tc));
            && File(Testcase, n) in g && g[File(Testcase, n)] == tc[File(Testcase, n)]
            && File(CmprImage, n) in g && g[File(CmprImage, n)] == img[File(CmprImage, n)]
            && (forall k :: k in {ExecMap, PmMap} && File(k, n) in tc ==>
                  File(k, n) in g && g[File(k, n)] == tc[File(k, n)])
            && (forall k :: k !in {Testcase, ExecMap, PmMap, CmprImage} ==> (File(k, n) in g <==> File(k, n) in gbl))
  {
    assert n in Testcases(tc);
    assert File(CmprImage, n) in img;
    forall k
      ensures var g := UpdatedGlobal(gbl, tc, img, Testcases(tc));
              && (k in {Testcase, ExecMap, PmMap} && File(k, n) in tc ==>
                    File(k, n) in g && g[File(k, n)] == tc[File(k, n)])
              && (k !in {Testcase, ExecMap, PmMap, CmprImage} ==> (File(k, n) in g <==> File(k, n) in gbl))
              && (k.CmprImage? ==> File(k, n) in g && g[File(k, n)] == img[File(k, n)])
    {
      UpdatedGlobalValue(gbl, tc, img, Testcases(tc), File(k, n));
    }
  }

  /** Of any other testcase nothing changes. */
  lemma GlobalStoreKeeps(gbl: Dir, tc: Dir, img: Dir, f: File)
    requires File(Testcase, f.name) !in tc || File(Testcase, f.name) in gbl || File(Deleted, f.name) in gbl
    ensures var g := UpdatedGlobal(gbl, tc, img, Testcases(tc));
            (f in g <==> f in gbl) && (f in gbl ==> g[f] == gbl[f])
  {
    UpdatedGlobalValue(gbl, tc, img, Testcases(tc), f);
  }

  /** What `update_local` brings of a testcase of the stage's own generation that the local store lacks. */
  lemma LocalStoreGains(gbl: Dir, loc: Dir, iter: nat, n: Name)
    requires File(Testcase, n) in gbl && Ancestors(n) + 1 == iter
    requires File(Testcase, n) !in loc && File(MinTestcase, n) !in loc
    ensures var l := UpdatedLocal(gbl, loc, iter, Testcases(gbl));
            && (forall k :: k in {Testcase, CmprImage, ExecMap, PmMap} && File(k, n) in gbl ==>
                  File(k, n) in l && l[File(k, n)] == gbl[File(k, n)])
            && (forall k :: k !in {Testcase, CmprImage, ExecMap, PmMap} ==> (File(k, n) in l <==> File(k, n) in loc))
  {
    assert n in Testcases(gbl);
    forall k
      ensures var l := UpdatedLocal(gbl, loc, iter, Testcases(gbl));
              && (k in {Testcase, CmprImage, ExecMap, PmMap} && File(k, n) in gbl ==>
                    File(k, n) in l && l[File(k, n)] == gbl[File(k, n)])
              && (k !in {Testcase, CmprImage, ExecMap, PmMap} ==> (File(k, n) in l <==> File(k, n) in loc))
    {
      UpdatedLocalValue(gbl, loc, iter, Testcases(gbl), File(k, n));
    }
  }

  /** Of any other testcase nothing changes. */
  lemma LocalStoreKeeps(gbl: Dir, loc: Dir, iter: nat, f: File)
    requires File(Testcase, f.name) !in gbl || Ancestors(f.name) + 1 != iter
             || File(Testcase, f.name) in loc || File(MinTestcase, f.name) in loc
    ensures var l := UpdatedLocal(gbl, loc, iter, Testcases(gbl));
            (f in l <==> f in loc) && (f in loc ==> l[f] == loc[f])
  {
    UpdatedLocalValue(gbl, loc, iter, Testcases(gbl), f);
  }

  /** What the minimisers leave of a dropped testcase, and that they leave the others alone. */
  lemma GlobalMinimiserLeaves(gbl: Dir, dropped: set<Name>, stamp: Content, k: Kind, n: Name)
    ensures var g, f := MinimizedGlobal(gbl, dropped, stamp), File(k, n);
            && (n !in dropped ==> (f in g <==> f in gbl) && (f in gbl ==> g[f] == gbl[f]))
            && (n in dropped && k in {CmprImage, CmprCrashSite} ==>
                  (f in g <==> f in gbl) && (f in gbl ==> g[f] == gbl[f]))
            && (n in dropped && k.Deleted? ==> f in g && g[f] == stamp)
            && (n in dropped && k !in {CmprImage, CmprCrashSite, Deleted} ==> f !in g)
  {
  }

  lemma LocalMinimiserLeaves(gbl: Dir, tc: Dir, dropped: set<Name>, stamp: Content, k: Kind, n: Name)
    ensures var g, f := BuriedGlobal(gbl, dropped, stamp), File(k, n);
            && (n !in dropped || k !in {Testcase, MinTestcase, PmMap, ExecMap, Deleted} ==>
                  (f in g <==> f in gbl) && (f in gbl ==> g[f] == gbl[f]))
            && (n in dropped && k in {Testcase, MinTestcase, PmMap, ExecMap} ==> f !in g)
            && (n in dropped && k in {Testcase, MinTestcase, PmMap, ExecMap} && f in gbl ==>
                  File(Deleted, n) in g && g[File(Deleted, n)] == stamp)
            && (n in dropped && (forall l :: l in {Testcase, MinTestcase, PmMap, ExecMap} ==> File(l, n) !in gbl) ==>
                  (File(Deleted, n) in g <==> File(Deleted, n) in gbl))
    ensures var t, f := MinimizedStage(tc, dropped), File(k, n);
            && (f in t <==> f in tc && (n !in dropped || k.Deleted?))
            && (f in t ==> t[f] == tc[f])
  {
    if forall l :: l in {Testcase, MinTestcase, PmMap, ExecMap} ==> File(l, n) !in gbl {
      var kinds := {Testcase, MinTestcase, PmMap, ExecMap};
      assert Testcase in kinds && MinTestcase in kinds && PmMap in kinds && ExecMap in kinds;
    }
  }

  // ---------- One testcase at a time ----------

  /** What `update_global` copies of one testcase. */
  function CopiedGlobal(g: Dir, tc: Dir, img: Dir, n: Name): Dir
    requires File(Testcase, n) in tc && File(CmprImage, n) in img
  {
    var a := g[File(Testcase, n) := tc[File(Testcase, n)]];
    var b := if File(ExecMap, n) in tc then a[File(ExecMap, n) := tc[File(ExecMap, n)]] else a;
    var c := if File(PmMap, n) in tc then b[File(PmMap, n) := tc[File(PmMap, n)]] else b;
    c[File(CmprImage, n) := img[File(CmprImage, n)]]
  }

  lemma UpdatedGlobalNone(gbl: Dir, tc: Dir, img: Dir)
    ensures UpdatedGlobal(gbl, tc, img, {}) == gbl
  {
  }

  lemma CopiedGlobalFile(g: Dir, tc: Dir, img: Dir, n: Name, f: File)
    requires File(Testcase, n) in tc && File(CmprImage, n) in img
    ensures var w := CopiedGlobal(g, tc, img, n);
            if f.name == n && f.kind.CmprImage? then f in w && w[f] == img[f]
            else if f.name == n && CopiedKind(f.kind) && f in tc then f in w && w[f] == tc[f]
            else (f in w <==> f in g) && (f in g ==> w[f] == g[f])
  {
    if f.name == n {
      assert f == File(f.kind, n);
    }
  }

  lemma UpdatedGlobalValue(gbl: Dir, tc: Dir, img: Dir, names: set<Name>, f: File)
    ensures var w := UpdatedGlobal(gbl, tc, img, names);
            var added := f.name in names && Missing(gbl, f.name);
            if added && f.kind.CmprImage? && f in img then f in w && w[f] == img[f]
            else if added && CopiedKind(f.kind) && f in tc then f in w && w[f] == tc[f]
            else (f in w <==> f in gbl) && (f in gbl ==> w[f] == gbl[f])
  {
  }

  lemma UpdatedGlobalNext(gbl: Dir, tc: Dir, img: Dir, names: set<Name>, n: Name)
    requires n !in names && File(Testcase, n) in tc && File(CmprImage, n) in img
    ensures UpdatedGlobal(gbl, tc, img, names + {n}) ==
            if Missing(gbl, n) then CopiedGlobal(UpdatedGlobal(gbl, tc, img, names), tc, img, n)
            else UpdatedGlobal(gbl, tc, img, names)
  {
    hide UpdatedGlobal, CopiedGlobal;
    var u, v := UpdatedGlobal(gbl, tc, img, names), UpdatedGlobal(gbl, tc, img, names + {n});
    var w := if Missing(gbl, n) then CopiedGlobal(u, tc, img, n) else u;
    forall f
      ensures (f in v <==> f in w) && (f in v ==> v[f] == w[f])
    {
      UpdatedGlobalValue(gbl, tc, img, names, f);
      UpdatedGlobalValue(gbl, tc, img, names + {n}, f);
      CopiedGlobalFile(u, tc, img, n, f);
      assert f.name == n ==> f == File(f.kind, n);
    }
  }

  /** What `update_local` copies of one testcase. */
  function CopiedLocal(l: Dir, gbl: Dir, n: Name): Dir
    requires File(Testcase, n) in gbl && Copyable(gbl, n)
  {
    var a := l[File(Testcase, n) := gbl[File(Testcase, n)]];
    var b := a[File(CmprImage, n) := gbl[File(CmprImage, n)]];
    var c := b[File(ExecMap, n) := gbl[File(ExecMap, n)]];
    if File(PmMap, n) in gbl then c[File(PmMap, n) := gbl[File(PmMap, n)]] else c
  }

  lemma CopiedLocalFile(l: Dir, gbl: Dir, n: Name, f: File)
    requires File(Testcase, n) in gbl && Copyable(gbl, n)
    ensures var w := CopiedLocal(l, gbl, n);
            if f.name == n && LocalKind(f.kind) && f in gbl then f in w && w[f] == gbl[f]
            else (f in w <==> f in l) && (f in l ==> w[f] == l[f])
  {
    if f.name == n {
      assert f == File(f.kind, n);
    }
  }

  lemma UpdatedLocalValue(gbl: Dir, loc: Dir, iter: nat, names: set<Name>, f: File)
    ensures var w := UpdatedLocal(gbl, loc, iter, names);
            if f.name in names && Selected(gbl, loc, iter, f.name) && LocalKind(f.kind) && f in gbl
            then f in w && w[f] == gbl[f]
            else (f in w <==> f in loc) && (f in loc ==> w[f] == loc[f])
  {
  }

  lemma UpdatedLocalNext(gbl: Dir, loc: Dir, iter: nat, names: set<Name>, n: Name)
    requires n !in names && File(Testcase, n) in gbl
    requires Selected(gbl, loc, iter, n) ==> Copyable(gbl, n)
    ensures UpdatedLocal(gbl, loc, iter, names + {n}) ==
            if Selected(gbl, loc, iter, n) then CopiedLocal(UpdatedLocal(gbl, loc, iter, names), gbl, n)
            else UpdatedLocal(gbl, loc, iter, names)
  {
    hide UpdatedLocal, CopiedLocal, Selected, Copyable;
    var u, v := UpdatedLocal(gbl, loc, iter, names), UpdatedLocal(gbl, loc, iter, names + {n});
    var w := if Selected(gbl, loc, iter, n) then CopiedLocal(u, gbl, n) else u;
    forall f
      ensures (f in v <==> f in w) && (f in v ==> v[f] == w[f])
    {
      UpdatedLocalValue(gbl, loc, iter, names, f);
      UpdatedLocalValue(gbl, loc, iter, names + {n}, f);
      if Selected(gbl, loc, iter, n) {
        CopiedLocalFile(u, gbl, n, f);
      }
    }
  }

  lemma UpdatedLocalNone(gbl: Dir, loc: Dir, iter: nat)
    ensures UpdatedLocal(gbl, loc, iter, {}) == loc
  {
  }

  lemma SelectedListed(gbl: Dir, loc: Dir, iter: nat)
    ensures forall n :: Selected(gbl, loc, iter, n) ==> n in Testcases(gbl)
  {
    forall n | Selected(gbl, loc, iter, n)
      ensures n in Testcases(gbl)
    {
      assert File(Testcase, n) in gbl;
    }
  }

  /** A copy that stops half-way through a testcase. */
  lemma StoppedBetween(gbl: Dir, loc: Dir, iter: nat, names: set<Name>, n: Name, mid: Dir)
    requires names <= Testcases(gbl) && Selected(gbl, loc, iter, n)
    requires var u := UpdatedLocal(gbl, loc, iter, names);
             var t := u[File(Testcase, n) := gbl[File(Testcase, n)]];
             mid == t || (File(CmprImage, n) in gbl && mid == t[File(CmprImage, n) := gbl[File(CmprImage, n)]])
    ensures Between(gbl, loc, iter, mid)
  {
    var u := UpdatedLocal(gbl, loc, iter, names);
    forall f | f in mid
      ensures f in loc || File(Testcase, f.name) in mid
    {
      if f in u && f !in loc {
        assert f.name in names && Selected(gbl, loc, iter, f.name);
        assert File(Testcase, f.name) in u;
      }
    }
  }

  const ALL_BUT_ARCHIVES: seq<Kind> := [Testcase, Clean, MinTestcase, PmMap, ExecMap, CrashSite, Image]
  const ALL_FILES: seq<Kind> :=
    [Testcase, Clean, MinTestcase, PmMap, ExecMap, CrashSite, CmprCrashSite, Image, CmprImage]
  const TYPES_TO_DELETE: seq<Kind> := [Testcase, MinTestcase, PmMap, ExecMap]

  lemma MinimizedGlobalValue(gbl: Dir, names: set<Name>, stamp: Content, f: File)
    ensures var w := MinimizedGlobal(gbl, names, stamp);
            if f.name in names && f.kind.Deleted? then f in w && w[f] == stamp
            else (f in w <==> f in gbl && (f.name in names ==> KeptGlobalKind(f.kind))) && (f in w ==> w[f] == gbl[f])
  {
    assert f == File(f.kind, f.name);
  }

  lemma RemovedKinds(k: Kind)
    ensures k in ALL_BUT_ARCHIVES <==> !KeptGlobalKind(k)
    ensures k in ALL_FILES <==> !k.Deleted?
    ensures k in TYPES_TO_DELETE <==> BuriedKind(k)
  {
  }

  lemma MinimizedGlobalNext(gbl: Dir, names: set<Name>, n: Name, stamp: Content)
    ensures MinimizedGlobal(gbl, names + {n}, stamp) ==
            Without(MinimizedGlobal(gbl, names, stamp), n, ALL_BUT_ARCHIVES)[File(Deleted, n) := stamp]
  {
    hide MinimizedGlobal;
    var u, v := MinimizedGlobal(gbl, names, stamp), MinimizedGlobal(gbl, names + {n}, stamp);
    var w := Without(u, n, ALL_BUT_ARCHIVES)[File(Deleted, n) := stamp];
    forall f
      ensures (f in v <==> f in w) && (f in v ==> v[f] == w[f])
    {
      MinimizedGlobalValue(gbl, names, stamp, f);
      MinimizedGlobalValue(gbl, names + {n}, stamp, f);
      RemovedKinds(f.kind);
      assert f == File(f.kind, f.name);
    }
  }

  lemma DropNone(gbl: Dir, stamp: Content)
    ensures MinimizedGlobal(gbl, {}, stamp) == gbl && BuriedGlobal(gbl, {}, stamp) == gbl
    ensures MinimizedStage(gbl, {}) == gbl
  {
  }

  lemma MinimizedStageNext(tc: Dir, names: set<Name>, n: Name)
    ensures MinimizedStage(tc, names + {n}) == Without(MinimizedStage(tc, names), n, ALL_FILES)
  {
    forall k
      ensures k in ALL_FILES <==> !k.Deleted?
    {
      RemovedKinds(k);
    }
  }

  lemma BuriedGlobalValue(gbl: Dir, names: set<Name>, stamp: Content, f: File)
    ensures var w := BuriedGlobal(gbl, names, stamp);
            if f.name in names && f.kind.Deleted? && HasBuriedKind(gbl, f.name) then f in w && w[f] == stamp
            else (f in w <==> f in gbl && (f.name in names ==> !BuriedKind(f.kind))) && (f in w ==> w[f] == gbl[f])
  {
    assert f == File(f.kind, f.name);
  }

  lemma StillThere(gbl: Dir, names: set<Name>, n: Name, stamp: Content)
    requires n !in names
    ensures HasBuriedKind(BuriedGlobal(gbl, names, stamp), n) <==> HasBuriedKind(gbl, n)
  {
    BuriedGlobalValue(gbl, names, stamp, File(Testcase, n));
    BuriedGlobalValue(gbl, names, stamp, File(MinTestcase, n));
    BuriedGlobalValue(gbl, names, stamp, File(PmMap, n));
    BuriedGlobalValue(gbl, names, stamp, File(ExecMap, n));
  }

  /** One file after one more testcase was buried. */
  lemma BuriedNextFile(gbl: Dir, names: set<Name>, n: Name, stamp: Content, f: File)
    requires n !in names
    ensures var u, v := BuriedGlobal(gbl, names, stamp), BuriedGlobal(gbl, names + {n}, stamp);
            var w := if HasBuriedKind(u, n) then Without(u, n, TYPES_TO_DELETE)[File(Deleted, n) := stamp] else u;
            (f in v <==> f in w) && (f in v ==> v[f] == w[f])
  {
    hide BuriedGlobal;
    StillThere(gbl, names, n, stamp);
    BuriedGlobalValue(gbl, names, stamp, f);
    BuriedGlobalValue(gbl, names + {n}, stamp, f);
    RemovedKinds(f.kind);
    assert f == File(f.kind, f.name);
  }

  lemma BuriedGlobalNext(gbl: Dir, names: set<Name>, n: Name, stamp: Content)
    requires n !in names
    ensures var u := BuriedGlobal(gbl, names, stamp);
            BuriedGlobal(gbl, names + {n}, stamp) ==
            if HasBuriedKind(u, n) then Without(u, n, TYPES_TO_DELETE)[File(Deleted, n) := stamp] else u
  {
    hide BuriedGlobal, HasBuriedKind, Without;
    forall f
      ensures var u, v := BuriedGlobal(gbl, names, stamp), BuriedGlobal(gbl, names + {n}, stamp);
              var w := if HasBuriedKind(u, n) then Without(u, n, TYPES_TO_DELETE)[File(Deleted, n) := stamp] else u;
              (f in v <==> f in w) && (f in v ==> v[f] == w[f])
    {
      BuriedNextFile(gbl, names, n, stamp, f);
    }
  }

  lemma WithoutNone(d: Dir, n: Name)
    ensures Without(d, n, []) == d
  {
  }

  lemma OthersThere(d: Dir, n: Name, i: nat)
    requires i < |TYPES_TO_DELETE|
    ensures File(TYPES_TO_DELETE[i], n) in Without(d, n, TYPES_TO_DELETE[..i]) <==> File(TYPES_TO_DELETE[i], n) in d
  {
    assert forall j :: 0 <= j < i ==> TYPES_TO_DELETE[j] != TYPES_TO_DELETE[i];
  }

  lemma BuriedIffOneThere(d: Dir, n: Name)
    ensures HasBuriedKind(d, n) <==> exists j :: 0 <= j < |TYPES_TO_DELETE| && File(TYPES_TO_DELETE[j], n) in d
  {
    assert forall j :: 0 <= j < |TYPES_TO_DELETE| ==> BuriedKind(TYPES_TO_DELETE[j]);
    if File(Testcase, n) in d { assert TYPES_TO_DELETE[0] == Testcase; }
    if File(MinTestcase, n) in d { assert MinTestcase in TYPES_TO_DELETE; }
    if File(PmMap, n) in d { assert PmMap in TYPES_TO_DELETE; }
    if File(ExecMap, n) in d { assert ExecMap in TYPES_TO_DELETE; }
  }

  /** How an `update_global` ended. */
  datatype Update = Updated | NoImage | Stopped

  class Dedup {
    const iterId: nat
    /** `@dedup`, and the stage's testcases, images and `@dedup_sync`. */
    const gbl: Directory
    const tc: Directory
    const img: Directory
    const loc: Directory

    ghost predicate Apart() {
      gbl != tc && gbl != img && gbl != loc && tc != img && tc != loc && img != loc
    }

    constructor (iterId: nat, gbl: Directory)
      ensures this.iterId == iterId && this.gbl == gbl && Apart()
      ensures fresh(tc) && fresh(img) && fresh(loc)
      ensures tc.files == map[] && img.files == map[] && loc.files == map[]
    {
      this.iterId := iterId;
      this.gbl := gbl;
      tc := new Directory();
      img := new Directory();
      loc := new Directory();
    }

    /** The check of `local_testcases_list`: every testcase of the stage has its image. */
    method CheckImages(list: seq<Name>) returns (ok: bool)
      requires Lists(list, Testcases(tc.files))
      ensures ok <==> ImagesThere(tc.files, img.files)
    {
      var i := 0;
      while i < |list|
        invariant 0 <= i <= |list|
        invariant forall n :: n in list[..i] ==> File(CmprImage, n) in img.files
      {
        if File(CmprImage, list[i]) !in img.files {
          return false;
        }
        i := i + 1;
      }
      assert list[..i] == list;
      return true;
    }

    /** Copies one testcase to the global store; with `stops`, PMFuzz may be stopped before any file is copied. */
    method CopyToGlobal(n: Name, stops: bool) returns (done: bool, ghost parts: set<Kind>)
      requires Apart() && File(Testcase, n) in tc.files && File(CmprImage, n) in img.files
      modifies gbl
      ensures !stops ==> done
      ensures done ==> gbl.files == CopiedGlobal(old(gbl.files), tc.files, img.files, n)
      ensures !done ==> BeforeImage(parts) && gbl.files == old(gbl.files) + PartsOf(tc.files, n, parts)
    {
      done, parts := false, {};
      var stop: bool := *;
      if stops && stop {
        return;
      }
      parts := {Testcase};
      gbl.CopyFrom(tc, File(Testcase, n));
      stop := *;
      if stops && stop {
        return;
      }
      parts := {Testcase, ExecMap};
      if File(ExecMap, n) in tc.files {
        gbl.CopyFrom(tc, File(ExecMap, n));
      }
      stop := *;
      if stops && stop {
        return;
      }
      parts := {Testcase, ExecMap, PmMap};
      if File(PmMap, n) in tc.files {
        gbl.CopyFrom(tc, File(PmMap, n));
      }
      stop := *;
      if stops && stop {
        return;
      }
      gbl.CopyFrom(img, File(CmprImage, n));
      done := true;
    }

    /**
     Without an image of every testcase it aborts before anything is copied. With `stops`, PMFuzz may be stopped
     before any file is copied: then it is done with `copied` and has copied `parts` of `next`.
     */
    method UpdateGlobal(stops: bool)
      returns (r: Update, ghost copied: set<Name>, ghost next: Name, ghost parts: set<Kind>)
      requires Apart()
      modifies gbl
      ensures r.NoImage? <==> !ImagesThere(tc.files, img.files)
      ensures r.Stopped? ==> stops && CanStop(old(gbl.files), tc.files, copied, next, parts)
      ensures gbl.files ==
              match r
              case Updated => UpdatedGlobal(old(gbl.files), tc.files, img.files, Testcases(tc.files))
              case NoImage => old(gbl.files)
              case Stopped => StoppedGlobal(old(gbl.files), tc.files, img.files, copied, next, parts)
    {
      var list := tc.ListTestcases();
      r, copied, next, parts := Updated, {}, Root(""), {};
      var ok := CheckImages(list);
      if !ok {
        return NoImage, copied, next, parts;
      }
      var gblTcFiles := gbl.files;
      SeenAll(list, Testcases(tc.files));
      UpdatedGlobalNone(gblTcFiles, tc.files, img.files);
      hide UpdatedGlobal, CopiedGlobal, Seen, Lists;
      var i := 0;
      while i < |list|
        invariant 0 <= i <= |list|
        invariant gbl.files == UpdatedGlobal(gblTcFiles, tc.files, img.files, Seen(list, i))
      {
        var n := list[i];
        SeenNext(list, Testcases(tc.files), i);
        UpdatedGlobalNext(gblTcFiles, tc.files, img.files, Seen(list, i), n);
        if File(Testcase, n) !in gblTcFiles && File(Deleted, n) !in gblTcFiles {
          var done;
          done, parts := CopyToGlobal(n, stops);
          if !done {
            return Stopped, Seen(list, i), n, parts;
          }
        }
        i := i + 1;
      }
    }

    /** Copies one testcase to the local store. Not ok is a missing image or execution map. */
    method CopyToLocal(n: Name) returns (ok: bool)
      requires Apart() && File(Testcase, n) in gbl.files
      modifies loc
      ensures ok <==> Copyable(gbl.files, n)
      ensures ok ==> loc.files == CopiedLocal(old(loc.files), gbl.files, n)
      ensures !ok ==> var t := old(loc.files)[File(Testcase, n) := gbl.files[File(Testcase, n)]];
                loc.files == t
                || (File(CmprImage, n) in gbl.files
                    && loc.files == t[File(CmprImage, n) := gbl.files[File(CmprImage, n)]])
    {
      loc.CopyFrom(gbl, File(Testcase, n));
      if File(CmprImage, n) !in gbl.files {
        return false;
      }
      loc.CopyFrom(gbl, File(CmprImage, n));
      if File(ExecMap, n) !in gbl.files {
        return false;
      }
      loc.CopyFrom(gbl, File(ExecMap, n));
      if File(PmMap, n) in gbl.files {
        loc.CopyFrom(gbl, File(PmMap, n));
      }
      return true;
    }

    /** What `update_local` does with one testcase of the global store; `before` is the local store it started from. */
    method ConsiderLocal(n: Name, before: Dir, ghost names: set<Name>) returns (ok: bool)
      requires Apart() && File(Testcase, n) in gbl.files && names <= Testcases(gbl.files) && n !in names
      requires loc.files == UpdatedLocal(gbl.files, before, iterId, names)
      modifies loc
      ensures ok <==> (Selected(gbl.files, before, iterId, n) ==> Copyable(gbl.files, n))
      ensures ok ==> loc.files == UpdatedLocal(gbl.files, before, iterId, names + {n})
      ensures !ok ==> Between(gbl.files, before, iterId, loc.files)
    {
      ok := true;
      hide UpdatedLocal, CopiedLocal, Between, Copyable, Testcases;
      if File(Testcase, n) !in before && File(MinTestcase, n) !in before && Ancestors(n) + 1 == iterId {
        ok := CopyToLocal(n);
        if !ok {
          StoppedBetween(gbl.files, before, iterId, names, n, loc.files);
          return;
        }
      }
      UpdatedLocalNext(gbl.files, before, iterId, names, n);
    }

    /** Copies the stage's generation from the global to the local store; stops at the first file that is missing. */
    method UpdateLocal() returns (ok: bool)
      requires Apart()
      modifies loc
      ensures ok <==> forall n :: Selected(gbl.files, old(loc.files), iterId, n) ==> Copyable(gbl.files, n)
      ensures ok ==> loc.files == UpdatedLocal(gbl.files, old(loc.files), iterId, Testcases(gbl.files))
      ensures !ok ==> Between(gbl.files, old(loc.files), iterId, loc.files)
    {
      var list := gbl.ListTestcases();
      var locTcFiles := loc.files;
      ghost var all := Testcases(gbl.files);
      ghost var names: set<Name> := {};
      SeenAll(list, all);
      UpdatedLocalNone(gbl.files, locTcFiles, iterId);
      SelectedListed(gbl.files, locTcFiles, iterId);
      hide UpdatedLocal, Between, Lists, Selected, Copyable, Seen;
      var i := 0;
      while i < |list|
        invariant 0 <= i <= |list| && names == Seen(list, i) && names <= all
        invariant loc.files == UpdatedLocal(gbl.files, locTcFiles, iterId, names)
        invariant forall n :: n in names && Selected(gbl.files, locTcFiles, iterId, n) ==> Copyable(gbl.files, n)
      {
        SeenNext(list, all, i);
        ok := ConsiderLocal(list[i], locTcFiles, names);
        if !ok {
          return;
        }
        names := names + {list[i]};
        i := i + 1;
      }
      ok := true;
    }

    /** The end of `minimize_corpus_gbl`: removes what the minimiser dropped, and buries it. */
    method DropGlobal(dropped: seq<Name>, stamp: Content)
      requires Lists(dropped, Seen(dropped, |dropped|))
      modifies gbl
      ensures gbl.files == MinimizedGlobal(old(gbl.files), Seen(dropped, |dropped|), stamp)
    {
      ghost var start := gbl.files;
      ghost var names := Seen(dropped, |dropped|);
      SeenAll(dropped, names);
      hide MinimizedGlobal, Without, Seen, Lists;
      DropNone(start, stamp);
      var i := 0;
      while i < |dropped|
        invariant 0 <= i <= |dropped|
        invariant gbl.files == MinimizedGlobal(start, Seen(dropped, i), stamp)
      {
        SeenNext(dropped, names, i);
        MinimizedGlobalNext(start, Seen(dropped, i), dropped[i], stamp);
        gbl.RemoveFiles(dropped[i], ALL_BUT_ARCHIVES);
        gbl.files := gbl.files[File(Deleted, dropped[i]) := stamp];
        i := i + 1;
      }
    }

    /** Removes a testcase's four files from the global store, with a tombstone if one of them was there. */
    method Bury(n: Name, stamp: Content)
      modifies gbl
      ensures gbl.files == if HasBuriedKind(old(gbl.files), n)
                           then Without(old(gbl.files), n, TYPES_TO_DELETE)[File(Deleted, n) := stamp]
                           else old(gbl.files)
    {
      hide Without, HasBuriedKind;
      ghost var start := gbl.files;
      var removed := false;
      var i := 0;
      WithoutNone(start, n);
      while i < |TYPES_TO_DELETE|
        invariant 0 <= i <= |TYPES_TO_DELETE|
        invariant removed <==> exists j :: 0 <= j < i && File(TYPES_TO_DELETE[j], n) in start
        invariant gbl.files ==
                  if removed then Without(start, n, TYPES_TO_DELETE[..i])[File(Deleted, n) := stamp] else start
        invariant !removed ==> Without(start, n, TYPES_TO_DELETE[..i]) == start
      {
        var f := File(TYPES_TO_DELETE[i], n);
        WithoutNext(start, n, TYPES_TO_DELETE, i);
        OthersThere(start, n, i);
        if f in gbl.files {
          gbl.files := (gbl.files - {f})[File(Deleted, n) := stamp];
          removed := true;
        }
        i := i + 1;
      }
      assert TYPES_TO_DELETE[..i] == TYPES_TO_DELETE;
      BuriedIffOneThere(start, n);
    }

    /** The end of `minimize_corpus_lcl`: removes what was dropped from the stage, then from the global store. */
    method DropLocal(dropped: seq<Name>, stamp: Content)
      requires Apart() && Lists(dropped, Seen(dropped, |dropped|))
      modifies gbl, tc
      ensures tc.files == MinimizedStage(old(tc.files), Seen(dropped, |dropped|))
      ensures gbl.files == BuriedGlobal(old(gbl.files), Seen(dropped, |dropped|), stamp)
    {
      ghost var startTc, startGbl := tc.files, gbl.files;
      ghost var names := Seen(dropped, |dropped|);
      SeenAll(dropped, names);
      hide MinimizedStage, BuriedGlobal, Without, Seen, Lists;
      DropNone(startTc, stamp);
      DropNone(startGbl, stamp);
      var i := 0;
      while i < |dropped|
        invariant 0 <= i <= |dropped|
        invariant gbl.files == startGbl
        invariant tc.files == MinimizedStage(startTc, Seen(dropped, i))
      {
        SeenNext(dropped, names, i);
        MinimizedStageNext(startTc, Seen(dropped, i), dropped[i]);
        tc.RemoveFiles(dropped[i], ALL_FILES);
        i := i + 1;
      }
      i := 0;
      while i < |dropped|
        invariant 0 <= i <= |dropped|
        invariant tc.files == MinimizedStage(startTc, names)
        invariant gbl.files == BuriedGlobal(startGbl, Seen(dropped, i), stamp)
      {
        SeenNext(dropped, names, i);
        BuriedGlobalNext(startGbl, Seen(dropped, i), dropped[i], stamp);
        Bury(dropped[i], stamp);
        i := i + 1;
      }
    }
  }
}
