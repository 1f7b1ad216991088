/** What the output directory says about how far a run got. Source: src/pmfuzz/stages/state.py. */
module StageState {
  import opened Listings
  import opened StageDirs

  /** Entries that start with `@` belong to no stage. */
  predicate Special(name: string) {
    name != "" && name[0] == '@'
  }

  predicate Readable(names: set<string>) {
    forall d :: d in names ==> Special(d) || StageInf(d).Some?
  }

  /** Stages and iterations that have a directory. */
  function Pairs(names: set<string>): set<(nat, nat)> {
    set d | d in names && !Special(d) && StageInf(d).Some? :: StageInf(d).value
  }

  predicate AtMost(p: (nat, nat), q: (nat, nat)) {
    p.0 < q.0 || (p.0 == q.0 && p.1 <= q.1)
  }

  /** The last stage and, in it, the last iteration; (0, 0) when there is none. */
  ghost predicate IsLatest(pairs: set<(nat, nat)>, p: (nat, nat)) {
    && (p in pairs || p == (0, 0))
    && forall q :: q in pairs ==> AtMost(q, p)
  }

  /** There is only one such pair, whatever the order in which the directory is listed. */
  lemma LatestUnique(pairs: set<(nat, nat)>, p: (nat, nat), q: (nat, nat))
    requires IsLatest(pairs, p) && IsLatest(pairs, q)
    ensures p == q
  {
    assert p in pairs ==> AtMost(p, q);
    assert q in pairs ==> AtMost(q, p);
  }

  /** The output directory. */
  class OutDir {
    var names: set<string>

    ghost predicate Valid()
      reads this
    {
      "" !in names
    }

    constructor ()
      ensures names == {} && Valid()
    {
      names := {};
    }

    /** os.listdir, in any order. */
    method Listing() returns (list: seq<string>)
      ensures forall d :: d in list <==> d in names
    {
      list := [];
      var rest := names;
      while rest != {}
        invariant rest <= names
        invariant forall d :: d in list <==> d in names - rest
        decreases rest
      {
        var d :| d in rest;
        list := list + [d];
        rest := rest - {d};
      }
    }

    /** makedirs, of a directory that may be there already. */
    method MakeDirs(name: string)
      requires Valid() && name != ""
      modifies this
      ensures Valid() && names == old(names) + {name}
    {
      names := names + {name};
    }

    method RmTree(name: string)
      requires Valid()
      modifies this
      ensures Valid() && names == old(names) - {name}
    {
      names := names - {name};
    }
  }

  class State {
    const outdir: OutDir
    var dedupExists: bool
    var stage: nat
    var iterId: nat

    constructor (outdir: OutDir)
      ensures this.outdir == outdir && !dedupExists
    {
      this.outdir := outdir;
      dedupExists, stage, iterId := false, 0, 0;
    }

    /** Fails when the name of an entry that is not special cannot be read. */
    method Sync() returns (ok: bool)
      requires outdir.Valid()
      modifies this
      ensures ok <==> Readable(outdir.names)
      ensures ok ==> IsLatest(Pairs(outdir.names), (stage, iterId))
      ensures ok ==> forall d :: d in outdir.names && d[0] != '@' ==>
                StageInf(d).Some?
                && (StageInf(d).value.0 < stage || (StageInf(d).value.0 == stage && StageInf(d).value.1 <= iterId))
      ensures ok ==> (stage, iterId) == (0, 0)
                     || exists d :: d in outdir.names && d[0] != '@'
                                    && StageInf(d).Some? && StageInf(d).value == (stage, iterId)
      ensures !ok ==> exists d :: d in outdir.names && d[0] != '@' && StageInf(d).None?
      ensures ok ==> (dedupExists <==> old(dedupExists) || "@dedup" in outdir.names)
    {
      hide StageInf;
      var dirs := outdir.Listing();
      var stageM, iterIdM: nat := 0, 0;
      var i := 0;
      while i < |dirs|
        invariant 0 <= i <= |dirs|
        invariant Readable(Among(dirs[..i]))
        invariant IsLatest(Pairs(Among(dirs[..i])), (stageM, iterIdM))
        invariant dedupExists <==> old(dedupExists) || "@dedup" in dirs[..i]
      {
        var dir := dirs[i];
        assert dirs[..i + 1] == dirs[..i] + [dir];
        assert dir in dirs && dir in outdir.names;
        LatestNext(Among(dirs[..i]), dir, (stageM, iterIdM));
        assert Among(dirs[..i + 1]) == Among(dirs[..i]) + {dir};
        if '@' == dir[0] {
          if dir == "@dedup" {
            dedupExists := true;
          }
        } else {
          var inf := GetStageInf(dir);
          if inf.None? {
            return false;
          }
          var (stage, iterId) := inf.value;
          if stage > stageM {
            stageM := stage;
            iterIdM := iterId;
          } else if stage == stageM && iterId > iterIdM {
            iterIdM := iterId;
          }
        }
        i := i + 1;
      }
      assert Among(dirs[..i]) == outdir.names;
      assert dirs[..i] == dirs;
      stage := stageM;
      iterId := iterIdM;
      ok := true;
      LatestMeans(outdir.names, stage, iterId);
    }
  }

  lemma LatestMeans(names: set<string>, stage: nat, iterId: nat)
    requires Readable(names) && IsLatest(Pairs(names), (stage, iterId))
    ensures forall d :: d in names && !Special(d) ==>
              StageInf(d).Some?
              && (StageInf(d).value.0 < stage || (StageInf(d).value.0 == stage && StageInf(d).value.1 <= iterId))
    ensures (stage, iterId) == (0, 0)
            || exists d :: d in names && !Special(d) && StageInf(d).Some? && StageInf(d).value == (stage, iterId)
  {
    hide StageInf;
    forall d | d in names && !Special(d)
      ensures StageInf(d).Some? && AtMost(StageInf(d).value, (stage, iterId))
    {
      assert StageInf(d).value in Pairs(names);
    }
  }

  /** One more entry. */
  lemma LatestNext(names: set<string>, d: string, p: (nat, nat))
    requires IsLatest(Pairs(names), p)
    ensures Special(d) ==> IsLatest(Pairs(names + {d}), p)
    ensures !Special(d) && StageInf(d).Some? ==>
              var q := StageInf(d).value;
              IsLatest(Pairs(names + {d}), if AtMost(q, p) then p else q)
  {
    hide StageInf;
    if !Special(d) && StageInf(d).Some? {
      assert Pairs(names + {d}) == Pairs(names) + {StageInf(d).value};
    } else {
      assert Pairs(names + {d}) == Pairs(names);
    }
  }
}
