/**
 What every run of the corpus stores keeps: images and their ancestors, tombstones, generations; and when
 `update_global` aborts.
 */
module CorpusRuns {
  import opened Names
  import opened FileNames
  import opened Lineage
  import opened Coverage
  import opened Corpus

  /** The name consists of generated testcases only. */
  predicate Generated(n: Name) {
    match n
    case Root(id) => IsId(id)
    case Sub(p, d, id) => Generated(p) && d.Comma? && IsId(id)
  }

  predicate HasImage(d: Dir, n: Name) {
    File(CmprImage, n) in d
  }

  /** The global store has the testcase, or had it. */
  predicate Known(gbl: Dir, n: Name) {
    File(Testcase, n) in gbl || File(Deleted, n) in gbl
  }

  /** Every testcase that is not torn has its image, and each its parent's. Images are those of known testcases. */
  ghost predicate ImagesClosed(gbl: Dir, torn: set<Name>) {
    && (forall n :: File(Testcase, n) in gbl && n !in torn ==> HasImage(gbl, n))
    && (forall n :: (HasImage(gbl, n) || File(Testcase, n) in gbl) && n.Sub? ==> HasImage(gbl, n.parent))
    && (forall n :: HasImage(gbl, n) ==> Known(gbl, n))
    && (forall n :: n in torn ==> Known(gbl, n) && !HasImage(gbl, n))
  }

  /** A buried testcase has none of its files but its image, and a map never stands alone. */
  ghost predicate Tombstones(gbl: Dir) {
    && (forall n :: File(Deleted, n) in gbl ==> !HasBuriedKind(gbl, n))
    && (forall n :: File(PmMap, n) in gbl ==> File(Testcase, n) in gbl)
  }

  /** Generations: stage 2 up to iteration k has found testcases of k + 1 ids at most. */
  ghost predicate Levels(gbl: Dir, top: nat) {
    forall n :: File(Testcase, n) in gbl ==> Generated(n) && Ancestors(n) <= top
  }

  /** A stage's testcases at `level` ancestors: each from a testcase whose image is kept. */
  ghost predicate StageReady(gbl: Dir, tc: Dir, level: nat) {
    && (forall n :: File(Testcase, n) in tc ==>
          Generated(n) && Ancestors(n) == level && (n.Sub? ==> HasImage(gbl, n.parent)))
    && (forall n :: File(PmMap, n) in tc ==> File(Testcase, n) in tc)
  }

  /** The local store holds the stage's own generation, as it was in the global store. */
  ghost predicate LocalReady(gbl: Dir, torn: set<Name>, loc: Dir, iter: nat) {
    && (forall n :: File(Testcase, n) in loc ==>
          Generated(n) && Ancestors(n) + 1 == iter && (HasImage(gbl, n) || n in torn) && Known(gbl, n))
    && (forall n :: File(PmMap, n) in loc ==> File(Testcase, n) in loc)
    && (forall n :: File(PmMap, n) in loc && File(PmMap, n) in gbl ==> loc[File(PmMap, n)] == gbl[File(PmMap, n)])
  }

  ghost predicate Inv(s: State) {
    && ImagesClosed(s.gbl, s.torn) && Tombstones(s.gbl) && Levels(s.gbl, s.top) && s.iter <= s.top
    && StageReady(s.gbl, s.tc1, 0)
    && StageReady(s.gbl, s.tc2, s.iter)
    && LocalReady(s.gbl, s.torn, s.loc, s.iter)
  }

  // ---------- update_global ----------

  lemma UpdatedGlobalFile(gbl: Dir, tc: Dir, img: Dir, names: set<Name>, f: File)
    ensures var g := UpdatedGlobal(gbl, tc, img, names);
            var added := f.name in names && Missing(gbl, f.name);
            && (f in g <==> f in gbl || (added && ((CopiedKind(f.kind) && f in tc) || (f.kind.CmprImage? && f in img))))
            && (f in gbl && (!added || !CopiedKind(f.kind)) && !f.kind.CmprImage? ==> g[f] == gbl[f])
  {
  }

  /** The same for an `update_global` that is stopped. */
  lemma StoppedGlobalFile(gbl: Dir, tc: Dir, img: Dir, names: set<Name>, next: Name, parts: set<Kind>, f: File)
    requires parts != {} ==> Missing(gbl, next)
    ensures var g := StoppedGlobal(gbl, tc, img, names, next, parts);
            var added := f.name in names && Missing(gbl, f.name);
            && (f in g <==>
                || f in gbl
                || (added && ((CopiedKind(f.kind) && f in tc) || (f.kind.CmprImage? && f in img)))
                || (f.kind in parts && f.name == next && f in tc))
            && (f in gbl && !Missing(gbl, f.name) ==> g[f] == gbl[f])
  {
    UpdatedGlobalFile(gbl, tc, img, names, f);
  }

  /** What has been copied when `update_global` ends or is stopped. */
  predicate Copying(gbl: Dir, tc: Dir, names: set<Name>, next: Name, parts: set<Kind>) {
    names <= Testcases(tc) && (parts != {} ==> CanStop(gbl, tc, names, next, parts))
  }

  lemma UpdateGlobalImages(gbl: Dir, torn: set<Name>, tc: Dir, img: Dir, level: nat,
                           names: set<Name>, next: Name, parts: set<Kind>)
    requires ImagesClosed(gbl, torn) && StageReady(gbl, tc, level) && ImagesThere(tc, img)
    requires Copying(gbl, tc, names, next, parts)
    ensures ImagesClosed(StoppedGlobal(gbl, tc, img, names, next, parts), torn + Tears(next, parts))
  {
    var g := StoppedGlobal(gbl, tc, img, names, next, parts);
    var torn' := torn + Tears(next, parts);
    forall n
      ensures File(Testcase, n) in g && n !in torn' ==> HasImage(g, n)
      ensures HasImage(g, n) || File(Testcase, n) in g ==> Known(g, n) && (n.Sub? ==> HasImage(g, n.parent))
      ensures n in torn' ==> Known(g, n) && !HasImage(g, n)
    {
      FilesAfterUpdate(gbl, torn, tc, img, names, next, parts, n);
      if n.Sub? {
        StoppedGlobalFile(gbl, tc, img, names, next, parts, File(CmprImage, n.parent));
      }
    }
  }

  /** How the files of one testcase in the global store come about. */
  lemma FilesAfterUpdate(gbl: Dir, torn: set<Name>, tc: Dir, img: Dir,
                         names: set<Name>, next: Name, parts: set<Kind>, n: Name)
    requires ImagesClosed(gbl, torn) && ImagesThere(tc, img) && Copying(gbl, tc, names, next, parts)
    ensures var g := StoppedGlobal(gbl, tc, img, names, next, parts);
            && (Known(gbl, n) ==> Known(g, n) && (HasImage(g, n) <==> HasImage(gbl, n)))
            && (Known(gbl, n) && File(Testcase, n) in g ==> File(Testcase, n) in gbl)
            && (!Known(gbl, n) && (HasImage(g, n) || File(Testcase, n) in g) ==>
                  && File(Testcase, n) in tc && File(Testcase, n) in g
                  && (HasImage(g, n) <==> n !in Tears(next, parts)))
            && (n in Tears(next, parts) ==> !Known(gbl, n) && File(Testcase, n) in g)
  {
    assert n in Testcases(tc) ==> File(Testcase, n) in tc;
    assert n in names ==> n in Testcases(tc);
    StoppedGlobalFile(gbl, tc, img, names, next, parts, File(Testcase, n));
    StoppedGlobalFile(gbl, tc, img, names, next, parts, File(Deleted, n));
    StoppedGlobalFile(gbl, tc, img, names, next, parts, File(CmprImage, n));
    hide StoppedGlobal, Testcases;
  }

  lemma UpdateGlobalTombstones(gbl: Dir, tc: Dir, img: Dir, level: nat,
                               names: set<Name>, next: Name, parts: set<Kind>)
    requires Tombstones(gbl) && StageReady(gbl, tc, level) && Copying(gbl, tc, names, next, parts)
    ensures Tombstones(StoppedGlobal(gbl, tc, img, names, next, parts))
  {
    var g := StoppedGlobal(gbl, tc, img, names, next, parts);
    hide StoppedGlobal;
    forall n
      ensures File(Deleted, n) in g ==> !HasBuriedKind(g, n)
      ensures File(PmMap, n) in g ==> File(Testcase, n) in g
    {
      StoppedGlobalFile(gbl, tc, img, names, next, parts, File(Deleted, n));
      StoppedGlobalFile(gbl, tc, img, names, next, parts, File(Testcase, n));
      StoppedGlobalFile(gbl, tc, img, names, next, parts, File(MinTestcase, n));
      StoppedGlobalFile(gbl, tc, img, names, next, parts, File(PmMap, n));
      StoppedGlobalFile(gbl, tc, img, names, next, parts, File(ExecMap, n));
    }
  }

  /** Nothing leaves the global store, and what the local store saw there is still the same. */
  lemma UpdateGlobalOthers(gbl: Dir, tc: Dir, img: Dir, level: nat, top: nat,
                           names: set<Name>, next: Name, parts: set<Kind>)
    requires Levels(gbl, top) && level <= top && StageReady(gbl, tc, level) && Tombstones(gbl)
    requires Copying(gbl, tc, names, next, parts)
    ensures var g := StoppedGlobal(gbl, tc, img, names, next, parts);
            && Levels(g, top)
            && (forall f :: f in gbl ==> f in g)
            && (forall n :: File(PmMap, n) in g && Known(gbl, n) ==>
                  File(PmMap, n) in gbl && g[File(PmMap, n)] == gbl[File(PmMap, n)])
  {
    var g := StoppedGlobal(gbl, tc, img, names, next, parts);
    hide StoppedGlobal;
    forall f
      ensures f in gbl ==> f in g
    {
      StoppedGlobalFile(gbl, tc, img, names, next, parts, f);
    }
    forall n
      ensures File(Testcase, n) in g ==> Generated(n) && Ancestors(n) <= top
      ensures File(PmMap, n) in g && Known(gbl, n) ==>
                File(PmMap, n) in gbl && g[File(PmMap, n)] == gbl[File(PmMap, n)]
    {
      StoppedGlobalFile(gbl, tc, img, names, next, parts, File(Testcase, n));
      StoppedGlobalFile(gbl, tc, img, names, next, parts, File(PmMap, n));
    }
  }

  /** A stage and a local store rely only on images and tombstones that stay, and on maps that do not change. */
  lemma GlobalMayGrow(gbl: Dir, g: Dir, tc: Dir, level: nat)
    requires StageReady(gbl, tc, level)
    requires forall n :: HasImage(gbl, n) ==> HasImage(g, n)
    ensures StageReady(g, tc, level)
  {
  }

  lemma LocalStaysReady(gbl: Dir, torn: set<Name>, g: Dir, torn': set<Name>, loc: Dir, iter: nat)
    requires LocalReady(gbl, torn, loc, iter) && torn <= torn'
    requires forall n :: HasImage(gbl, n) ==> HasImage(g, n)
    requires forall n :: Known(gbl, n) ==> Known(g, n)
    requires forall n :: File(PmMap, n) in g && Known(gbl, n) ==>
               File(PmMap, n) in gbl && g[File(PmMap, n)] == gbl[File(PmMap, n)]
    ensures LocalReady(g, torn', loc, iter)
  {
  }

  // ---------- The minimisers ----------

  lemma MinimizedGlobalFile(gbl: Dir, dropped: set<Name>, stamp: Content, f: File)
    ensures var g := MinimizedGlobal(gbl, dropped, stamp);
            && (f in g <==> (f in gbl && (f.name !in dropped || KeptGlobalKind(f.kind)))
                            || (f.kind.Deleted? && f.name in dropped))
            && (f in gbl && f in g && !f.kind.Deleted? ==> g[f] == gbl[f])
  {
    if f.kind.Deleted? && f.name in dropped {
      assert File(Deleted, f.name) == f;
    }
  }

  lemma BuriedGlobalFile(gbl: Dir, dropped: set<Name>, stamp: Content, f: File)
    ensures var g := BuriedGlobal(gbl, dropped, stamp);
            && (f in g <==> (f in gbl && (f.name !in dropped || !BuriedKind(f.kind)))
                            || (f.kind.Deleted? && f.name in dropped && HasBuriedKind(gbl, f.name)))
            && (f in gbl && f in g && !f.kind.Deleted? ==> g[f] == gbl[f])
  {
    if f.kind.Deleted? && f.name in dropped {
      assert File(Deleted, f.name) == f;
    }
  }

  /** How a minimiser changes the global store: it removes testcases with all their files, and buries each. */
  ghost predicate Buries(gbl: Dir, g: Dir) {
    && (forall n :: HasImage(gbl, n) <==> HasImage(g, n))
    && (forall n :: File(Testcase, n) in g ==> File(Testcase, n) in gbl)
    && (forall n :: File(Testcase, n) in gbl ==> File(Testcase, n) in g || File(Deleted, n) in g)
    && (forall n :: File(Deleted, n) in gbl ==> File(Deleted, n) in g)
    && (forall n :: File(PmMap, n) in g ==> File(PmMap, n) in gbl && g[File(PmMap, n)] == gbl[File(PmMap, n)])
    && Tombstones(g)
  }

  lemma MinimizeGlobalBuries(gbl: Dir, dropped: set<Name>, stamp: Content)
    requires Tombstones(gbl)
    ensures Buries(gbl, MinimizedGlobal(gbl, dropped, stamp))
  {
    var g := MinimizedGlobal(gbl, dropped, stamp);
    hide MinimizedGlobal;
    forall n, k
      ensures var f := File(k, n);
              && (f in g <==> (f in gbl && (n !in dropped || KeptGlobalKind(k))) || (k.Deleted? && n in dropped))
              && (f in gbl && f in g && !k.Deleted? ==> g[f] == gbl[f])
    {
      MinimizedGlobalFile(gbl, dropped, stamp, File(k, n));
    }
  }

  lemma MinimizeLocalBuries(gbl: Dir, dropped: set<Name>, stamp: Content)
    requires Tombstones(gbl)
    ensures Buries(gbl, BuriedGlobal(gbl, dropped, stamp))
  {
    var g := BuriedGlobal(gbl, dropped, stamp);
    hide BuriedGlobal;
    forall n, k
      ensures var f := File(k, n);
              && (f in g <==> (f in gbl && (n !in dropped || !BuriedKind(k)))
                              || (k.Deleted? && n in dropped && HasBuriedKind(gbl, n)))
              && (f in gbl && f in g && !k.Deleted? ==> g[f] == gbl[f])
    {
      BuriedGlobalFile(gbl, dropped, stamp, File(k, n));
    }
  }

  lemma BuryingKeepsInv(s: State, g: Dir)
    requires Inv(s) && Buries(s.gbl, g)
    ensures Inv(s.(gbl := g))
  {
    GlobalMayGrow(s.gbl, g, s.tc1, 0);
    GlobalMayGrow(s.gbl, g, s.tc2, s.iter);
    LocalStaysReady(s.gbl, s.torn, g, s.torn, s.loc, s.iter);
  }

  // ---------- Steps ----------

  lemma UpdateGlobalKeepsInv(s: State, tc: Dir, img: Dir, level: nat,
                             names: set<Name>, next: Name, parts: set<Kind>)
    requires Inv(s) && StageReady(s.gbl, tc, level) && level <= s.top && ImagesThere(tc, img)
    requires Copying(s.gbl, tc, names, next, parts)
    ensures Inv(s.(gbl := StoppedGlobal(s.gbl, tc, img, names, next, parts), torn := s.torn + Tears(next, parts)))
  {
    var g := StoppedGlobal(s.gbl, tc, img, names, next, parts);
    UpdateGlobalImages(s.gbl, s.torn, tc, img, level, names, next, parts);
    UpdateGlobalTombstones(s.gbl, tc, img, level, names, next, parts);
    UpdateGlobalOthers(s.gbl, tc, img, level, s.top, names, next, parts);
    hide StoppedGlobal, Copying;
    GlobalMayGrow(s.gbl, g, s.tc1, 0);
    GlobalMayGrow(s.gbl, g, s.tc2, s.iter);
    LocalStaysReady(s.gbl, s.torn, g, s.torn + Tears(next, parts), s.loc, s.iter);
  }

  /** An `update_global` that is not stopped. */
  lemma WholeUpdateKeepsInv(s: State, tc: Dir, img: Dir, level: nat)
    requires Inv(s) && StageReady(s.gbl, tc, level) && level <= s.top && ImagesThere(tc, img)
    ensures Inv(s.(gbl := UpdatedGlobal(s.gbl, tc, img, Testcases(tc))))
  {
    var next := Root("");
    UpdateGlobalKeepsInv(s, tc, img, level, Testcases(tc), next, {});
    assert StoppedGlobal(s.gbl, tc, img, Testcases(tc), next, {}) == UpdatedGlobal(s.gbl, tc, img, Testcases(tc));
    assert s.torn + Tears(next, {}) == s.torn;
  }

  lemma CollectKeepsReady(gbl: Dir, tc: Dir, level: nat, n: Name, found: Found)
    requires StageReady(gbl, tc, level)
    requires Generated(n) && Ancestors(n) == level && (n.Sub? ==> HasImage(gbl, n.parent))
    ensures StageReady(gbl, WithTestcase(tc, n, found), level)
  {
  }

  lemma UpdateLocalKeepsReady(s: State, reached: Dir)
    requires Inv(s) && Enabled(s, UpdateLocal(reached))
    ensures LocalReady(s.gbl, s.torn, reached, s.iter)
  {
    forall n | File(Testcase, n) in reached
      ensures Generated(n) && Ancestors(n) + 1 == s.iter && (HasImage(s.gbl, n) || n in s.torn)
      ensures Known(s.gbl, n)
    {
    }
    forall n | File(PmMap, n) in reached
      ensures File(Testcase, n) in reached
    {
      if File(PmMap, n) in s.loc {
        assert File(Testcase, n) in s.loc;
      }
    }
  }

  /** An `update_local` that copies everything is one way to get there. */
  lemma WholeUpdateIsBetween(gbl: Dir, loc: Dir, iter: nat)
    ensures Between(gbl, loc, iter, UpdatedLocal(gbl, loc, iter, Testcases(gbl)))
  {
    forall f | f in UpdatedLocal(gbl, loc, iter, Testcases(gbl))
      ensures f in loc || File(Testcase, f.name) in UpdatedLocal(gbl, loc, iter, Testcases(gbl))
    {
      if f !in loc {
        assert Selected(gbl, loc, iter, f.name);
        assert File(Testcase, f.name) in gbl && f.name in Testcases(gbl);
      }
    }
  }

  lemma StepKeepsInv(s: State, e: Event)
    requires Inv(s) && Enabled(s, e)
    ensures Inv(Step(s, e))
  {
    match e
    case CollectRoot(id, found) => CollectKeepsReady(s.gbl, s.tc1, 0, Root(id), found);
    case CollectChild(p, id, found) =>
      CollectKeepsReady(s.gbl, s.tc2, s.iter, Sub(p, Comma, id), found);
    case UpdateGlobal1 =>
      if ImagesThere(s.tc1, s.img1) {
        WholeUpdateKeepsInv(s, s.tc1, s.img1, 0);
      }
    case UpdateGlobal2 =>
      if ImagesThere(s.tc2, s.img2) {
        WholeUpdateKeepsInv(s, s.tc2, s.img2, s.iter);
      }
    case StopInUpdate1(copied, next, parts) => UpdateGlobalKeepsInv(s, s.tc1, s.img1, 0, copied, next, parts);
    case StopInUpdate2(copied, next, parts) => UpdateGlobalKeepsInv(s, s.tc2, s.img2, s.iter, copied, next, parts);
    case UpdateLocal(reached) => UpdateLocalKeepsReady(s, reached);
    case MinimizeGlobal(dropped, stamp) =>
      MinimizeGlobalBuries(s.gbl, dropped, stamp);
      BuryingKeepsInv(s, MinimizedGlobal(s.gbl, dropped, stamp));
    case MinimizeLocal(dropped, stamp) =>
      MinimizeLocalBuries(s.gbl, dropped, stamp);
      BuryingKeepsInv(s, BuriedGlobal(s.gbl, dropped, stamp));
    case NextIteration =>
    case FallBack =>
  }

  lemma EmptyRun()
    ensures Run([]) == START && Legal([])
  {
  }

  lemma RunSnoc(events: seq<Event>, e: Event)
    ensures Run(events + [e]) == Step(Run(events), e)
    ensures Legal(events + [e]) <==> Legal(events) && Enabled(Run(events), e)
  {
    assert (events + [e])[..|events|] == events;
  }

  /** The invariant holds in every reachable state. */
  lemma {:induction false} InvAlways(events: seq<Event>)
    requires Legal(events)
    ensures Inv(Run(events))
  {
    if events != [] {
      InvAlways(events[..|events| - 1]);
      StepKeepsInv(Run(events[..|events| - 1]), events[|events| - 1]);
    }
  }

  // ---------- What follows for every run ----------

  predicate IsAncestor(a: Name, n: Name) {
    n.Sub? && (a == n.parent || IsAncestor(a, n.parent))
  }

  lemma {:induction false} ChainOfImages(gbl: Dir, torn: set<Name>, a: Name, n: Name)
    requires ImagesClosed(gbl, torn) && (HasImage(gbl, n) || File(Testcase, n) in gbl) && IsAncestor(a, n)
    ensures HasImage(gbl, a)
  {
    if a != n.parent {
      ChainOfImages(gbl, torn, a, n.parent);
    }
  }

  /** `update_global` was stopped in the middle of copying the testcase. */
  predicate TornBy(e: Event, n: Name) {
    match e
    case StopInUpdate1(_, next, parts) => n == next && parts != {}
    case StopInUpdate2(_, next, parts) => n == next && parts != {}
    case _ => false
  }

  predicate WasTorn(events: seq<Event>, n: Name) {
    exists i :: 0 <= i < |events| && TornBy(events[i], n)
  }

  lemma {:induction false} TornIff(events: seq<Event>, n: Name)
    ensures n in Run(events).torn <==> WasTorn(events, n)
  {
    if events != [] {
      var before, last := events[..|events| - 1], events[|events| - 1];
      TornIff(before, n);
      RunLast(events);
      TornStep(Run(before), last, n);
      assert forall i :: 0 <= i < |before| ==> before[i] == events[i];
    }
  }

  lemma TornStep(s: State, e: Event, n: Name)
    ensures n in Step(s, e).torn <==> n in s.torn || TornBy(e, n)
  {
  }

  /**
   In every run, a testcase of the global store has the images of all its ancestors there, and its own exactly
   if PMFuzz was never stopped while it was copied. Nothing ever mends a testcase that was.
   */
  lemma AncestorImages(events: seq<Event>, n: Name)
    requires Legal(events) && File(Testcase, n) in Run(events).gbl
    ensures HasImage(Run(events).gbl, n) <==> !WasTorn(events, n)
    ensures forall a :: IsAncestor(a, n) ==> HasImage(Run(events).gbl, a)
  {
    InvAlways(events);
    TornIff(events, n);
    forall a | IsAncestor(a, n)
      ensures HasImage(Run(events).gbl, a)
    {
      ChainOfImages(Run(events).gbl, Run(events).torn, a, n);
    }
  }

  /**
   The parent image a collected child is checked against is missing exactly for a testcase that was torn, and so
   is the image of a testcase `update_local` looks at. What else can make `update_local` abort is only a selected
   testcase without an execution map.
   */
  lemma ImageAbortsIff(events: seq<Event>)
    requires Legal(events)
    ensures var s := Run(events);
            && (forall n :: File(Testcase, n) in s.loc ==> (HasImage(s.gbl, n) <==> !WasTorn(events, n)))
            && (forall n :: Selected(s.gbl, s.loc, s.iter, n) ==>
                  (Copyable(s.gbl, n) <==> !WasTorn(events, n) && File(ExecMap, n) in s.gbl))
  {
    var s := Run(events);
    InvAlways(events);
    hide Run, Legal, WasTorn;
    forall n
      ensures n in s.torn <==> WasTorn(events, n)
    {
      TornIff(events, n);
    }
  }

  /** No child of a torn testcase is ever collected. */
  lemma {:induction false} TornHasNoChildren(events: seq<Event>, i: nat, p: Name)
    requires Legal(events) && i < |events| && events[i].CollectChild? && events[i].parent == p
    ensures !WasTorn(events[..i], p)
    decreases |events|
  {
    var before, last := events[..|events| - 1], events[|events| - 1];
    assert events == before + [last];
    RunSnoc(before, last);
    hide Run, Legal, WasTorn;
    if i < |before| {
      TornHasNoChildren(before, i, p);
      assert before[..i] == events[..i];
    } else {
      InvAlways(before);
      TornIff(before, p);
      ParentIsNotTorn(Run(before), last);
    }
  }

  lemma ParentIsNotTorn(s: State, e: Event)
    requires Inv(s) && Enabled(s, e) && e.CollectChild?
    ensures e.parent !in s.torn
  {
  }

  /** A run that stops right after it has copied the first testcase: iteration 1 then cannot collect from it. */
  lemma TornTestcase(n: Name) returns (events: seq<Event>)
    requires n == Root("1")
    ensures Legal(events) && WasTorn(events, n) && Run(events).iter == 1
    ensures File(Testcase, n) in Run(events).loc && !HasImage(Run(events).gbl, n)
  {
    var e1, e2 := CollectRoot("1", FOUND), StopInUpdate1({}, n, {Testcase});
    var e4 := UpdateLocal(map[File(Testcase, n) := []]);
    StopAtFirst(n, e1, e2);
    ReachesLocalStore(Step(Step(START, e1), e2), n, e4);
    EmptyRun();
    hide Run, Legal, Step, Enabled;
    RunSnoc([], e1);
    RunSnoc([] + [e1], e2);
    RunSnoc([] + [e1] + [e2], NextIteration);
    RunSnoc([] + [e1] + [e2] + [NextIteration], e4);
    events := [] + [e1] + [e2] + [NextIteration] + [e4];
    assert TornBy(events[1], n);
  }

  lemma StopAtFirst(n: Name, e1: Event, e2: Event)
    requires n == Root("1") && e1 == CollectRoot("1", FOUND) && e2 == StopInUpdate1({}, n, {Testcase})
    ensures Enabled(START, e1) && Enabled(Step(START, e1), e2)
    ensures var s := Step(Step(START, e1), e2); s.gbl == map[File(Testcase, n) := []] && s.iter == 0
  {
    TornStore(WithTestcase(map[], n, FOUND), WithImage(map[], n, FOUND), n);
    hide WithTestcase, WithImage, ImagesThere, CanStop, StoppedGlobal;
  }

  lemma ReachesLocalStore(s: State, n: Name, e: Event)
    requires n == Root("1") && s.gbl == map[File(Testcase, n) := []] && s.iter == 0 && e == UpdateLocal(s.gbl)
    ensures var t := Step(s, NextIteration);
            && Enabled(s, NextIteration) && Enabled(t, e)
            && Step(t, e).iter == 1 && Step(t, e).gbl == Step(t, e).loc == s.gbl && !HasImage(s.gbl, n)
  {
    LocalStopped(s.gbl, n);
    hide Between;
  }

  lemma TornStore(tc: Dir, img: Dir, n: Name)
    requires tc == WithTestcase(map[], n, FOUND) && img == WithImage(map[], n, FOUND)
    ensures ImagesThere(tc, img) && CanStop(map[], tc, {}, n, {Testcase})
    ensures StoppedGlobal(map[], tc, img, {}, n, {Testcase}) == map[File(Testcase, n) := []]
  {
    assert File(Testcase, n) in tc && tc[File(Testcase, n)] == [];
    assert n in Testcases(tc);
    OneMore(map[], n);
    assert UpdatedGlobal(map[], tc, img, {}) == map[];
  }

  lemma LocalStopped(gbl: Dir, n: Name)
    requires n == Root("1") && gbl == map[File(Testcase, n) := []]
    ensures Between(gbl, map[], 1, gbl)
  {
  }

  // ---------- When update_global aborts ----------

  /** The run so far collected the child in this iteration, and no minimiser has dropped it since. */
  predicate InStage(events: seq<Event>, n: Name) {
    if events == [] then false
    else
      var before := events[..|events| - 1];
      match events[|events| - 1]
      case CollectChild(p, id, _) => n == Sub(p, Comma, id) || InStage(before, n)
      case MinimizeLocal(dropped, _) => n !in dropped && InStage(before, n)
      case NextIteration => false
      case FallBack => false
      case _ => InStage(before, n)
  }

  /** Some collection of the child in this iteration left an image. */
  predicate Pictured(events: seq<Event>, n: Name) {
    if events == [] then false
    else
      var before := events[..|events| - 1];
      match events[|events| - 1]
      case CollectChild(p, id, found) => (n == Sub(p, Comma, id) && found.image.Some?) || Pictured(before, n)
      case NextIteration => false
      case FallBack => false
      case _ => Pictured(before, n)
  }

  predicate LeavesNoImage(e: Event) {
    e.CollectRoot? && e.root.image.None?
  }

  lemma {:induction false} StageTwoHistory(events: seq<Event>, n: Name)
    ensures File(Testcase, n) in Run(events).tc2 <==> InStage(events, n)
    ensures HasImage(Run(events).img2, n) <==> Pictured(events, n)
  {
    if events != [] {
      var before := events[..|events| - 1];
      StageTwoHistory(before, n);
      hide Run;
      StepStageTwo(Run(before), events[|events| - 1], n);
      RunLast(events);
    }
  }

  lemma RunLast(events: seq<Event>)
    requires events != []
    ensures Run(events) == Step(Run(events[..|events| - 1]), events[|events| - 1])
  {
  }

  lemma StepStageTwo(s: State, e: Event, n: Name)
    ensures File(Testcase, n) in Step(s, e).tc2 <==>
            match e
            case CollectChild(p, id, _) => n == Sub(p, Comma, id) || File(Testcase, n) in s.tc2
            case MinimizeLocal(dropped, _) => n !in dropped && File(Testcase, n) in s.tc2
            case NextIteration => false
            case FallBack => false
            case _ => File(Testcase, n) in s.tc2
    ensures HasImage(Step(s, e).img2, n) <==>
            match e
            case CollectChild(p, id, found) => (n == Sub(p, Comma, id) && found.image.Some?) || HasImage(s.img2, n)
            case NextIteration => false
            case FallBack => false
            case _ => HasImage(s.img2, n)
  {
  }

  /** In stage 1 an image is there only for a testcase that was collected, and a testcase is collected once. */
  lemma {:induction false} StageOneHistory(events: seq<Event>)
    requires Legal(events)
    ensures forall n :: HasImage(Run(events).img1, n) ==> File(Testcase, n) in Run(events).tc1
    ensures ImagesThere(Run(events).tc1, Run(events).img1) <==>
            forall i :: 0 <= i < |events| ==> !LeavesNoImage(events[i])
  {
    if events != [] {
      var before, last := events[..|events| - 1], events[|events| - 1];
      StageOneHistory(before);
      RunLast(events);
      StepStageOne(Run(before), last);
      assert forall i :: 0 <= i < |before| ==> before[i] == events[i];
    }
  }

  lemma StepStageOne(s: State, e: Event)
    requires Enabled(s, e) && forall n :: HasImage(s.img1, n) ==> File(Testcase, n) in s.tc1
    ensures var t := Step(s, e);
            && (forall n :: HasImage(t.img1, n) ==> File(Testcase, n) in t.tc1)
            && (ImagesThere(t.tc1, t.img1) <==> ImagesThere(s.tc1, s.img1) && !LeavesNoImage(e))
  {
    if e.CollectRoot? {
      CollectOne(s.tc1, s.img1, Root(e.rootId), e.root);
    }
  }

  lemma CollectOne(tc: Dir, img: Dir, n: Name, found: Found)
    requires File(Testcase, n) !in tc && forall m :: HasImage(img, m) ==> File(Testcase, m) in tc
    ensures var t, i := WithTestcase(tc, n, found), WithImage(img, n, found);
            && (forall m :: HasImage(i, m) ==> File(Testcase, m) in t)
            && (ImagesThere(t, i) <==> ImagesThere(tc, img) && found.image.Some?)
  {
    var t, i := WithTestcase(tc, n, found), WithImage(img, n, found);
    assert forall m :: File(Testcase, m) in t <==> File(Testcase, m) in tc || m == n;
    assert Testcases(t) == Testcases(tc) + {n};
    assert forall m :: HasImage(i, m) <==> HasImage(img, m) || (m == n && found.image.Some?);
  }

  /**
   Exactly when `update_global` aborts on a testcase without an image: in stage 1 as soon as one collection
   has left no image, in stage 2 while the stage holds a child no collection of which has left one.
   */
  lemma UpdateGlobalAbortsIff(events: seq<Event>)
    requires Legal(events)
    ensures !ImagesThere(Run(events).tc1, Run(events).img1) <==>
            exists i :: 0 <= i < |events| && LeavesNoImage(events[i])
    ensures !ImagesThere(Run(events).tc2, Run(events).img2) <==>
            exists n :: InStage(events, n) && !Pictured(events, n)
  {
    StageOneHistory(events);
    hide Run, Legal, ImagesThere, InStage, Pictured;
    StageTwoImages(events);
  }

  lemma StageTwoImages(events: seq<Event>)
    ensures !ImagesThere(Run(events).tc2, Run(events).img2) <==>
            exists n :: InStage(events, n) && !Pictured(events, n)
  {
    SomeWithoutImage(Run(events).tc2, Run(events).img2);
    var tc, img := Run(events).tc2, Run(events).img2;
    if ImagesThere(tc, img) {
      forall n | InStage(events, n)
        ensures Pictured(events, n)
      {
        StageTwoHistory(events, n);
      }
    } else {
      var n :| File(Testcase, n) in tc && !HasImage(img, n);
      StageTwoHistory(events, n);
      assert InStage(events, n) && !Pictured(events, n);
    }
  }

  lemma SomeWithoutImage(tc: Dir, img: Dir)
    ensures !ImagesThere(tc, img) <==> exists n :: File(Testcase, n) in tc && !HasImage(img, n)
  {
    assert forall n :: n in Testcases(tc) <==> File(Testcase, n) in tc;
  }

  /** Stage 1 never gets past that abort: however the run goes on, nothing makes the missing image. */
  lemma StageOneStuck(events: seq<Event>, later: seq<Event>)
    requires Legal(events) && Legal(events + later) && !ImagesThere(Run(events).tc1, Run(events).img1)
    ensures var s := Run(events + later); !ImagesThere(s.tc1, s.img1) && Step(s, UpdateGlobal1) == s
  {
    hide Run;
    UpdateGlobalAbortsIff(events);
    UpdateGlobalAbortsIff(events + later);
    var i :| 0 <= i < |events| && LeavesNoImage(events[i]);
    assert (events + later)[i] == events[i];
  }

  /** One testcase whose image the target failed to make, and the abort is reached. */
  lemma UpdateGlobalAborts() returns (events: seq<Event>)
    ensures Legal(events) && |events| == 1 && !ImagesThere(Run(events).tc1, Run(events).img1)
  {
    events := [CollectRoot("1", Found([], Some([]), None, None))];
    assert events[..0] == [];
    assert LeavesNoImage(events[0]);
    assert Run([]) == START && Legal([]);
    UpdateGlobalAbortsIff(events);
  }

  // ---------- Generations ----------

  /**
   Generations: at iteration k the local store holds testcases of k ids, every collected child has k + 1 ids and
   comes from a testcase of k ids, and the global store has nothing beyond one id more than the highest
   iteration there was.
   */
  lemma GenerationsMatch(events: seq<Event>)
    requires Legal(events)
    ensures var s := Run(events);
            && (forall n :: File(Testcase, n) in s.loc ==> Ancestors(n) + 1 == s.iter)
            && (forall n :: File(Testcase, n) in s.tc2 ==>
                  && Ancestors(n) == s.iter
                  && (s.iter >= 1 ==> n.Sub? && n.delim.Comma? && Ancestors(n.parent) + 1 == s.iter))
            && (forall n :: File(Testcase, n) in s.gbl ==> Ancestors(n) + 1 <= s.top + 1)
  {
    InvAlways(events);
  }

  /** Position `i` is the last fall back of the run. */
  predicate LastFallBack(events: seq<Event>, i: nat) {
    i < |events| && events[i].FallBack? && forall j :: i < j < |events| ==> !events[j].FallBack?
  }

  /** How often the run went on to the next iteration from position `i` on. */
  function IterationsFrom(events: seq<Event>, i: nat): nat {
    if |events| <= i then 0
    else IterationsFrom(events[..|events| - 1], i) + if events[|events| - 1].NextIteration? then 1 else 0
  }

  /** The iteration counts from the last fall back, or from the start, where it is also the highest there was. */
  lemma {:induction false} IterationCounts(events: seq<Event>, i: nat)
    requires i <= |events| && forall j :: i <= j < |events| ==> !events[j].FallBack?
    requires i == 0 || events[i - 1].FallBack?
    ensures Run(events).iter == IterationsFrom(events, i)
    ensures i == 0 ==> Run(events).top == Run(events).iter
    decreases |events|
  {
    if events != [] {
      var before := events[..|events| - 1];
      RunLast(events);
      if i < |events| {
        IterationCounts(before, i);
      }
    }
  }

  /** Since position `i`, without a fall back, the global store gained only what the iteration allows. */
  lemma {:induction false} GainedSince(events: seq<Event>, i: nat, n: Name)
    requires Legal(events) && i <= |events| && forall j :: i <= j < |events| ==> !events[j].FallBack?
    requires File(Testcase, n) in Run(events).gbl
    ensures File(Testcase, n) in Run(events[..i]).gbl || Ancestors(n) <= Run(events).iter
    decreases |events|
  {
    if i == |events| {
      assert events[..i] == events;
    } else {
      var before, e := events[..|events| - 1], events[|events| - 1];
      RunLast(events);
      InvAlways(before);
      GainedByStep(Run(before), e, n);
      if File(Testcase, n) in Run(before).gbl {
        GainedSince(before, i, n);
        assert before[..i] == events[..i];
      }
    }
  }

  lemma StoppedTestcase(gbl: Dir, tc: Dir, img: Dir, copied: set<Name>, next: Name, parts: set<Kind>, n: Name)
    requires CanStop(gbl, tc, copied, next, parts)
    requires File(Testcase, n) in StoppedGlobal(gbl, tc, img, copied, next, parts)
    ensures File(Testcase, n) in gbl || File(Testcase, n) in tc
  {
    StoppedGlobalFile(gbl, tc, img, copied, next, parts, File(Testcase, n));
  }

  lemma GainedByStep(s: State, e: Event, n: Name)
    requires Inv(s) && Enabled(s, e) && File(Testcase, n) in Step(s, e).gbl && !e.FallBack?
    ensures s.iter <= Step(s, e).iter
    ensures File(Testcase, n) in s.gbl || Ancestors(n) <= s.iter
  {
    hide UpdatedGlobal, StoppedGlobal, MinimizedGlobal, BuriedGlobal, WithTestcase, CanStop, Between;
    match e
    case UpdateGlobal1 => UpdatedGlobalFile(s.gbl, s.tc1, s.img1, Testcases(s.tc1), File(Testcase, n));
    case UpdateGlobal2 => UpdatedGlobalFile(s.gbl, s.tc2, s.img2, Testcases(s.tc2), File(Testcase, n));
    case StopInUpdate1(copied, next, parts) => StoppedTestcase(s.gbl, s.tc1, s.img1, copied, next, parts, n);
    case StopInUpdate2(copied, next, parts) => StoppedTestcase(s.gbl, s.tc2, s.img2, copied, next, parts, n);
    case MinimizeGlobal(dropped, stamp) => MinimizedGlobalFile(s.gbl, dropped, stamp, File(Testcase, n));
    case MinimizeLocal(dropped, stamp) => BuriedGlobalFile(s.gbl, dropped, stamp, File(Testcase, n));
    case _ =>
  }

  /**
   A testcase of the global store is deeper than the iteration allows exactly if it was there before the last fall
   back and the run has since gone on to fewer iterations than it has ancestors. Without a fall back there is none.
   */
  lemma TooDeepIff(events: seq<Event>, n: Name)
    requires Legal(events) && File(Testcase, n) in Run(events).gbl
    ensures Ancestors(n) > Run(events).iter <==>
            exists i: nat :: LastFallBack(events, i) && File(Testcase, n) in Run(events[..i]).gbl
                        && Ancestors(n) > IterationsFrom(events, i + 1)
  {
    hide Run, Legal;
    forall i: nat | LastFallBack(events, i)
      ensures Run(events).iter == IterationsFrom(events, i + 1)
    {
      IterationCounts(events, i + 1);
    }
    if Ancestors(n) > Run(events).iter {
      if i: nat :| LastFallBack(events, i) {
        GainedSince(events, i + 1, n);
        FallBackKeepsGlobal(events, i, n);
      } else {
        NoFallBack(events);
        IterationCounts(events, 0);
        InvAlways(events);
        assert false;
      }
    }
  }

  lemma FallBackKeepsGlobal(events: seq<Event>, i: nat, n: Name)
    requires i < |events| && events[i].FallBack?
    ensures Run(events[..i + 1]).gbl == Run(events[..i]).gbl
  {
    RunLast(events[..i + 1]);
    assert events[..i + 1][..i] == events[..i];
  }

  lemma {:induction false} NoFallBack(events: seq<Event>)
    requires forall i: nat :: !LastFallBack(events, i)
    ensures forall i :: 0 <= i < |events| ==> !events[i].FallBack?
  {
    if events != [] {
      var n := |events| - 1;
      assert !LastFallBack(events, n);
      forall i: nat
        ensures !LastFallBack(events[..n], i)
      {
        if LastFallBack(events[..n], i) {
          assert events[..n][i] == events[i];
          assert forall j :: i < j < n ==> events[..n][j] == events[j];
          assert LastFallBack(events, i);
        }
      }
      NoFallBack(events[..n]);
      assert forall i :: 0 <= i < n ==> events[..n][i] == events[i];
    }
  }

  // ---------- A run that falls back ----------

  /** The child of the child ... of the first testcase of stage 1, `k` times. */
  function Chain(k: nat): (n: Name)
    ensures Ancestors(n) == k
  {
    if k == 0 then Root("1") else Sub(Chain(k - 1), Comma, "1")
  }

  const FOUND := Found([], Some([]), None, Some([]))

  /** Nothing is buried, and every testcase can be copied to a local store. */
  ghost predicate Unburied(gbl: Dir) {
    forall n :: File(Deleted, n) !in gbl && (File(Testcase, n) in gbl ==> Copyable(gbl, n))
  }

  lemma OneMore(gbl: Dir, n: Name)
    requires Unburied(gbl)
    ensures var tc, img := WithTestcase(map[], n, FOUND), WithImage(map[], n, FOUND);
            var g := UpdatedGlobal(gbl, tc, img, Testcases(tc));
            ImagesThere(tc, img) && Unburied(g) && File(Testcase, n) in g
  {
    var tc, img := WithTestcase(map[], n, FOUND), WithImage(map[], n, FOUND);
    assert File(Testcase, n) in tc && Testcases(tc) == {n};
    forall f
      ensures f in UpdatedGlobal(gbl, tc, img, {n}) <==>
              f in gbl || (f.name == n && Missing(gbl, n) && (f.kind.Testcase? || f.kind.ExecMap? || f.kind.CmprImage?))
    {
      UpdatedGlobalFile(gbl, tc, img, {n}, f);
    }
  }

  lemma LocalTestcase(s: State, p: Name) returns (e: Event)
    requires Unburied(s.gbl) && File(Testcase, p) in s.gbl && Ancestors(p) + 1 == s.iter && s.loc == map[]
    ensures Enabled(s, e) && e.UpdateLocal? && File(Testcase, p) in e.reached
  {
    assert Selected(s.gbl, map[], s.iter, p) && p in Testcases(s.gbl);
    e := UpdateLocal(UpdatedLocal(s.gbl, map[], s.iter, Testcases(s.gbl)));
    WholeUpdateIsBetween(s.gbl, s.loc, s.iter);
  }

  lemma CollectedTestcase(s: State, p: Name)
    requires Unburied(s.gbl) && File(Testcase, p) in s.gbl && File(Testcase, p) in s.loc
    requires s.iter >= 1 && s.tc2 == map[] && s.img2 == map[]
    ensures var e := CollectChild(p, "1", FOUND);
            var g := Step(Step(s, e), UpdateGlobal2);
            && Enabled(s, e) && Enabled(Step(s, e), UpdateGlobal2)
            && Unburied(g.gbl) && File(Testcase, Sub(p, Comma, "1")) in g.gbl && g.iter == s.iter
  {
    OneMore(s.gbl, Sub(p, Comma, "1"));
    hide StoppedGlobal, Between, CanStop, Unburied, UpdatedGlobal, ImagesThere, WithTestcase, WithImage, Testcases;
  }

  /** The next iteration, up to the child of `p` that it collects. */
  lemma Generation(events: seq<Event>, p: Name) returns (more: seq<Event>)
    requires Legal(events) && Unburied(Run(events).gbl)
    requires File(Testcase, p) in Run(events).gbl && Ancestors(p) == Run(events).iter
    ensures Legal(more) && Unburied(Run(more).gbl) && Run(more).iter == Run(events).iter + 1
    ensures File(Testcase, Sub(p, Comma, "1")) in Run(more).gbl
  {
    RunSnoc(events, NextIteration);
    more := events + [NextIteration];
    assert Enabled(Run(events), NextIteration);
    var s := Run(more);
    assert s == Step(Run(events), NextIteration);
    hide Run, Legal, Unburied;
    var e := LocalTestcase(s, p);
    RunSnoc(more, e);
    more := more + [e];
    assert Run(more) == s.(loc := e.reached);
    hide Step, Enabled;
    CollectedTestcase(Run(more), p);
    RunSnoc(more, CollectChild(p, "1", FOUND));
    more := more + [CollectChild(p, "1", FOUND)];
    RunSnoc(more, UpdateGlobal2);
    more := more + [UpdateGlobal2];
  }

  lemma FirstRun() returns (events: seq<Event>)
    ensures Legal(events) && Unburied(Run(events).gbl) && Run(events).iter == 0
    ensures File(Testcase, Root("1")) in Run(events).gbl
  {
    var e := CollectRoot("1", FOUND);
    assert Legal([]) && Run([]) == START;
    RunSnoc([], e);
    assert [] + [e] == [e] && Enabled(START, e);
    RunSnoc([e], UpdateGlobal1);
    OneMore(map[], Root("1"));
    hide Run, Legal, Unburied, UpdatedGlobal, ImagesThere, WithTestcase, WithImage, Testcases;
    events := [e] + [UpdateGlobal1];
  }

  lemma {:induction false} DeepRun(k: nat) returns (events: seq<Event>)
    ensures Legal(events) && Unburied(Run(events).gbl) && Run(events).iter == k
    ensures File(Testcase, Chain(k)) in Run(events).gbl
  {
    hide Run, Legal, Unburied;
    if k == 0 {
      events := FirstRun();
    } else {
      events := DeepRun(k - 1);
      events := Generation(events, Chain(k - 1));
    }
  }

  lemma BackToOne(s: State)
    requires s.iter >= 1
    ensures var t := Step(s, FallBack);
            && Enabled(s, FallBack) && Enabled(t, NextIteration)
            && Step(t, NextIteration).iter == 1 && Step(t, NextIteration).gbl == s.gbl
  {
  }

  /** There is no bound: a testcase of any depth can be in the global store at iteration 1, after a fall back. */
  lemma DeepAtIterationOne(k: nat) returns (events: seq<Event>)
    ensures Legal(events) && Run(events).iter == 1
    ensures exists n :: File(Testcase, n) in Run(events).gbl && Ancestors(n) == k + 1
  {
    var deep := DeepRun(k + 1);
    BackToOne(Run(deep));
    hide Run, Legal, Step, Enabled;
    RunSnoc(deep, FallBack);
    RunSnoc(deep + [FallBack], NextIteration);
    events := deep + [FallBack] + [NextIteration];
    assert File(Testcase, Chain(k + 1)) in Run(events).gbl;
  }

  // ---------- Children and their parents ----------

  /** Every child in the stage came from a testcase that is in the local store. */
  lemma {:induction false} ChildrenFromLocalStore(events: seq<Event>, n: Name)
    requires Legal(events) && File(Testcase, n) in Run(events).tc2
    ensures n.Sub? && File(Testcase, n.parent) in Run(events).loc
  {
    if events != [] {
      var before, e := events[..|events| - 1], events[|events| - 1];
      var s := Run(before);
      StepStageTwo(s, e, n);
      if File(Testcase, n) in s.tc2 {
        ChildrenFromLocalStore(before, n);
        LocalStoreGrows(s, e, File(Testcase, n.parent));
      }
    }
  }

  lemma LocalStoreGrows(s: State, e: Event, f: File)
    requires Enabled(s, e) && f in s.loc && !e.NextIteration? && !e.FallBack?
    ensures f in Step(s, e).loc
  {
  }

  /** `get_testcase_parent` of a collected child is the testcase that produced it, and the local store has that. */
  method ParentOfCollected(ghost events: seq<Event>, child: Name) returns (parent: string)
    requires Legal(events) && File(Testcase, child) in Run(events).tc2
    ensures child.Sub? && parent == FileName(Testcase, child.parent) && File(Testcase, child.parent) in Run(events).loc
  {
    hide Run, Legal;
    ChildrenFromLocalStore(events, child);
    InvAlways(events);
    GeneratedWellFormed(child);
    parent := ParentOfFile(Testcase, child);
  }

  lemma {:induction false} GeneratedWellFormed(n: Name)
    requires Generated(n)
    ensures WellFormed(n)
  {
    if n.Sub? {
      GeneratedWellFormed(n.parent);
    }
  }

  lemma BuriedStays(s: State, e: Event, n: Name)
    requires Inv(s) && Enabled(s, e) && File(Deleted, n) in s.gbl
    ensures File(Deleted, n) in Step(s, e).gbl
  {
    hide Enabled, UpdatedGlobal, MinimizedGlobal, BuriedGlobal, WithTestcase, Testcases;
    match e
    case UpdateGlobal1 => UpdatedGlobalFile(s.gbl, s.tc1, s.img1, Testcases(s.tc1), File(Deleted, n));
    case UpdateGlobal2 => UpdatedGlobalFile(s.gbl, s.tc2, s.img2, Testcases(s.tc2), File(Deleted, n));
    case StopInUpdate1(copied, next, parts) => UpdatedGlobalFile(s.gbl, s.tc1, s.img1, copied, File(Deleted, n));
    case StopInUpdate2(copied, next, parts) => UpdatedGlobalFile(s.gbl, s.tc2, s.img2, copied, File(Deleted, n));
    case MinimizeGlobal(dropped, stamp) => MinimizeGlobalBuries(s.gbl, dropped, stamp);
    case MinimizeLocal(dropped, stamp) => MinimizeLocalBuries(s.gbl, dropped, stamp);
    case _ =>
  }

  /** Tombstones are permanent: however the run goes on, a buried testcase and its maps never come back. */
  lemma {:induction false} TombstonesPermanent(events: seq<Event>, later: seq<Event>, n: Name)
    requires Legal(events + later) && File(Deleted, n) in Run(events).gbl
    ensures var gbl := Run(events + later).gbl;
            && File(Deleted, n) in gbl && File(Testcase, n) !in gbl
            && File(ExecMap, n) !in gbl && File(PmMap, n) !in gbl
  {
    InvAlways(events + later);
    if later == [] {
      assert events + later == events;
    } else {
      var before := later[..|later| - 1];
      assert (events + later)[..|events + later| - 1] == events + before;
      TombstonesPermanent(events, before, n);
      InvAlways(events + before);
      BuriedStays(Run(events + before), later[|later| - 1], n);
    }
  }
}
