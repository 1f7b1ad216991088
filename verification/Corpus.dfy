/**
 The corpus stores, on values: the global store `@dedup`, and a stage's testcases, images and local store.
 Failure injection is off, so there are no crash sites. Source: src/pmfuzz/stages/dedup.py.
 */
module Corpus {
  import opened Names
  import opened FileNames
  import opened Coverage

  datatype File = File(kind: Kind, name: Name)

  type Dir = map<File, Content>

  function Testcases(d: Dir): set<Name> {
    set f | f in d && f.kind.Testcase? :: f.name
  }

  // ---------- What the operations do to the stores ----------

  /** `update_global` copies a testcase that the global store neither has nor has buried. */
  predicate Missing(gbl: Dir, n: Name) {
    File(Testcase, n) !in gbl && File(Deleted, n) !in gbl
  }

  predicate CopiedKind(k: Kind) {
    k.Testcase? || k.ExecMap? || k.PmMap?
  }

  /** The global store after `names` of the stage's testcases were considered. */
  function UpdatedGlobal(gbl: Dir, tc: Dir, img: Dir, names: set<Name>): Dir {
    gbl
    + (map f | f in tc && CopiedKind(f.kind) && f.name in names && Missing(gbl, f.name) :: tc[f])
    + (map f | f in img && f.kind.CmprImage? && f.name in names && Missing(gbl, f.name) :: img[f])
  }

  /** The kinds that `update_global` has copied of one testcase at some point before its image, in this order. */
  predicate BeforeImage(parts: set<Kind>) {
    parts == {} || parts == {Testcase} || parts == {Testcase, ExecMap} || parts == {Testcase, ExecMap, PmMap}
  }

  /** Where `update_global` can be stopped: it is done with `copied`, and has copied `parts` of the next testcase. */
  predicate CanStop(gbl: Dir, tc: Dir, copied: set<Name>, next: Name, parts: set<Kind>) {
    && copied <= Testcases(tc) && next in Testcases(tc) && next !in copied
    && BeforeImage(parts) && (parts != {} ==> Missing(gbl, next))
  }

  function PartsOf(tc: Dir, n: Name, parts: set<Kind>): Dir {
    map f | f in tc && f.kind in parts && f.name == n :: tc[f]
  }

  function StoppedGlobal(gbl: Dir, tc: Dir, img: Dir, copied: set<Name>, next: Name, parts: set<Kind>): Dir {
    UpdatedGlobal(gbl, tc, img, copied) + PartsOf(tc, next, parts)
  }

  /** `update_local` copies the testcases of the stage's own generation that the local store lacks. */
  predicate Selected(gbl: Dir, loc: Dir, iter: nat, n: Name) {
    && File(Testcase, n) in gbl && Ancestors(n) + 1 == iter
    && File(Testcase, n) !in loc && File(MinTestcase, n) !in loc
  }

  predicate LocalKind(k: Kind) {
    k.Testcase? || k.CmprImage? || k.ExecMap? || k.PmMap?
  }

  function UpdatedLocal(gbl: Dir, loc: Dir, iter: nat, names: set<Name>): Dir {
    loc + (map f | f in gbl && LocalKind(f.kind) && f.name in names && Selected(gbl, loc, iter, f.name) :: gbl[f])
  }

  /** The image and the execution map are copied without asking whether they are there. */
  predicate Copyable(gbl: Dir, n: Name) {
    File(CmprImage, n) in gbl && File(ExecMap, n) in gbl
  }

  /** A local store on the way to the updated one: where an `update_local` may stop. */
  ghost predicate Between(gbl: Dir, loc: Dir, iter: nat, mid: Dir) {
    && (forall f :: f in loc ==> f in mid)
    && (forall f :: f in mid ==>
          (f in loc && mid[f] == loc[f])
          || (LocalKind(f.kind) && f in gbl && mid[f] == gbl[f] && Selected(gbl, loc, iter, f.name)))
    && (forall f :: f in mid ==> f in loc || File(Testcase, f.name) in mid)
  }

  /** What `minimize_corpus_gbl` leaves of a dropped testcase: its archives, and a tombstone. */
  predicate KeptGlobalKind(k: Kind) {
    k.CmprImage? || k.CmprCrashSite? || k.Deleted?
  }

  function MinimizedGlobal(gbl: Dir, dropped: set<Name>, stamp: Content): Dir {
    (map f | f in gbl && (f.name !in dropped || KeptGlobalKind(f.kind)) :: gbl[f])
    + (map n | n in dropped :: File(Deleted, n) := stamp)
  }

  /** The four files `minimize_corpus_lcl` removes from the global store. */
  predicate BuriedKind(k: Kind) {
    k.Testcase? || k.MinTestcase? || k.PmMap? || k.ExecMap?
  }

  predicate HasBuriedKind(gbl: Dir, n: Name) {
    || File(Testcase, n) in gbl || File(MinTestcase, n) in gbl
    || File(PmMap, n) in gbl || File(ExecMap, n) in gbl
  }

  /** `minimize_corpus_lcl` in the global store: a tombstone for each testcase of which it removed a file. */
  function BuriedGlobal(gbl: Dir, dropped: set<Name>, stamp: Content): Dir {
    (map f | f in gbl && (f.name !in dropped || !BuriedKind(f.kind)) :: gbl[f])
    + (map n | n in dropped && HasBuriedKind(gbl, n) :: File(Deleted, n) := stamp)
  }

  /** `minimize_corpus_lcl` in the stage's testcase directory. */
  function MinimizedStage(tc: Dir, dropped: set<Name>): Dir {
    map f | f in tc && (f.name !in dropped || f.kind.Deleted?) :: tc[f]
  }

  // ---------- Runs ----------

  /**
   The stores of a whole run: stage 1's, and those of stage 2's current iteration, 0 before stage 2. `top` is
   the highest iteration there was, `torn` are the testcases that PMFuzz was stopped at while it copied them to
   the global store, before it came to the image.
   */
  datatype State = State(
    gbl: Dir, tc1: Dir, img1: Dir, tc2: Dir, img2: Dir, loc: Dir, iter: nat, top: nat, torn: set<Name>)

  const START := State(map[], map[], map[], map[], map[], map[], 0, 0, {})

  /**
   What AFL and the target leave of one testcase. The testcase is copied first; the collection may abort
   before it has a map, and the target may fail to make the image.
   */
  datatype Found = Found(testcase: Content, execMap: Option<Content>, pmMap: Option<Content>, image: Option<Content>)

  datatype Event =
    | CollectRoot(rootId: string, root: Found)
    | CollectChild(parent: Name, childId: string, child: Found)
    | UpdateGlobal1
    | UpdateGlobal2
    | StopInUpdate1(copied1: set<Name>, next1: Name, parts1: set<Kind>)
    | StopInUpdate2(copied2: set<Name>, next2: Name, parts2: set<Kind>)
    | UpdateLocal(reached: Dir)
    | MinimizeGlobal(droppedGlobal: set<Name>, stampGlobal: Content)
    | MinimizeLocal(droppedLocal: set<Name>, stampLocal: Content)
    | NextIteration
    | FallBack

  function WithTestcase(tc: Dir, n: Name, found: Found): Dir {
    var t := tc[File(Testcase, n) := found.testcase];
    var e := if found.execMap.Some? then t[File(ExecMap, n) := found.execMap.value] else t;
    if found.pmMap.Some? then e[File(PmMap, n) := found.pmMap.value] else e
  }

  function WithImage(img: Dir, n: Name, found: Found): Dir {
    if found.image.Some? then img[File(CmprImage, n) := found.image.value] else img
  }

  /**
   What can happen: stage 1 collects what it has not collected, children come from testcases of the local
   store whose image is there, `update_local` copies everything or as far as it gets until it aborts or is
   stopped, minimisers drop testcases of their corpus.
   */
  ghost predicate Enabled(s: State, e: Event) {
    match e
    case CollectRoot(id, _) => IsId(id) && File(Testcase, Root(id)) !in s.tc1
    case CollectChild(p, id, _) =>
      s.iter >= 1 && IsId(id) && File(Testcase, p) in s.loc && File(CmprImage, p) in s.gbl
    case UpdateGlobal1 => true
    case UpdateGlobal2 => true
    case StopInUpdate1(copied, next, parts) => ImagesThere(s.tc1, s.img1) && CanStop(s.gbl, s.tc1, copied, next, parts)
    case StopInUpdate2(copied, next, parts) => ImagesThere(s.tc2, s.img2) && CanStop(s.gbl, s.tc2, copied, next, parts)
    case UpdateLocal(reached) => s.iter >= 1 && Between(s.gbl, s.loc, s.iter, reached)
    case MinimizeGlobal(dropped, _) => dropped <= Testcases(s.gbl)
    case MinimizeLocal(dropped, _) => dropped <= Testcases(s.loc) + Testcases(s.tc2)
    case NextIteration => true
    case FallBack => s.iter >= 1
  }

  /** `update_global` first aborts if some testcase of the stage has no image. */
  predicate ImagesThere(tc: Dir, img: Dir) {
    forall n :: n in Testcases(tc) ==> File(CmprImage, n) in img
  }

  /** A stop leaves a testcase torn if some of its files have been copied. */
  function Tears(next: Name, parts: set<Kind>): set<Name> {
    if parts == {} then {} else {next}
  }

  function Step(s: State, e: Event): State {
    match e
    case CollectRoot(id, found) =>
      s.(tc1 := WithTestcase(s.tc1, Root(id), found), img1 := WithImage(s.img1, Root(id), found))
    case CollectChild(p, id, found) =>
      var n := Sub(p, Comma, id);
      s.(tc2 := WithTestcase(s.tc2, n, found), img2 := WithImage(s.img2, n, found))
    case UpdateGlobal1 =>
      if ImagesThere(s.tc1, s.img1) then s.(gbl := UpdatedGlobal(s.gbl, s.tc1, s.img1, Testcases(s.tc1))) else s
    case UpdateGlobal2 =>
      if ImagesThere(s.tc2, s.img2) then s.(gbl := UpdatedGlobal(s.gbl, s.tc2, s.img2, Testcases(s.tc2))) else s
    case StopInUpdate1(copied, next, parts) =>
      s.(gbl := StoppedGlobal(s.gbl, s.tc1, s.img1, copied, next, parts), torn := s.torn + Tears(next, parts))
    case StopInUpdate2(copied, next, parts) =>
      s.(gbl := StoppedGlobal(s.gbl, s.tc2, s.img2, copied, next, parts), torn := s.torn + Tears(next, parts))
    case UpdateLocal(reached) => s.(loc := reached)
    case MinimizeGlobal(dropped, stamp) => s.(gbl := MinimizedGlobal(s.gbl, dropped, stamp))
    case MinimizeLocal(dropped, stamp) =>
      s.(gbl := BuriedGlobal(s.gbl, dropped, stamp), tc2 := MinimizedStage(s.tc2, dropped))
    case NextIteration =>
      s.(tc2 := map[], img2 := map[], loc := map[], iter := s.iter + 1,
         top := if s.iter + 1 > s.top then s.iter + 1 else s.top)
    // a stop after the iteration's directory was cleared, before the next one's is there
    case FallBack => s.(tc2 := map[], img2 := map[], loc := map[], iter := 0)
  }

  function Run(events: seq<Event>): State {
    if events == [] then START else Step(Run(events[..|events| - 1]), events[|events| - 1])
  }

  ghost predicate Legal(events: seq<Event>) {
    events == [] || (Legal(events[..|events| - 1]) && Enabled(Run(events[..|events| - 1]), events[|events| - 1]))
  }
}
