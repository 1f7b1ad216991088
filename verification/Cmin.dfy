/**
 The corpus minimiser: of the testcases whose PM maps are the same, only the first listed is copied.
 Source: src/pmfuzz/tools/pmfuzz-cmin. The hash of a map is taken as injective: a map stands for its hash.
 */
module Cmin {
  import opened Names
  import opened FileNames
  import opened Coverage

  /** One file of the map directory, as listed. */
  datatype Listed = Listed(kind: Kind, name: Name, content: Content)

  /** A listing of files, none twice. */
  ghost predicate IsListing(dir: seq<Listed>) {
    forall i, j :: 0 <= i < j < |dir| ==> dir[i].kind != dir[j].kind || dir[i].name != dir[j].name
  }

  function PmContents(dir: seq<Listed>): set<Content> {
    set e | e in dir && e.kind.PmMap? :: e.content
  }

  /** The testcases whose PM map repeats one listed before it. */
  function Dups(dir: seq<Listed>): set<Name> {
    if dir == [] then {}
    else
      var rest, e := dir[..|dir| - 1], dir[|dir| - 1];
      Dups(rest) + (if e.kind.PmMap? && e.content in PmContents(rest) then {e.name} else {})
  }

  /** The files whose names `pmfuzz-cmin` reads as PM maps are the PM maps, and each leads to its testcase. */
  lemma PmMapNames(k: Kind, n: Name)
    requires WellFormed(n) && (k.PmMap? || k.ExecMap?)
    ensures Contains(FileName(k, n), "pm_map") <==> k.PmMap?
    ensures k.PmMap? ==> Replace(Replace(FileName(k, n), "pm_map_", ""), "map_", "") == FileName(Testcase, n)
  {
    hide Contains, Replace, FileName;
    if k.PmMap? {
      ContainsPmMap(n);
      TestcaseOfPmMap(n);
    } else {
      ExecMapIsNoPmMap(n);
    }
  }

  lemma TestcaseOfPmMap(n: Name)
    requires WellFormed(n)
    ensures Replace(Replace(FileName(PmMap, n), "pm_map_", ""), "map_", "") == FileName(Testcase, n)
  {
    hide Contains, Replace;
    NameChars(n);
    ReplaceMapLead(Print(n));
    NoLeadInTestcase(n);
    ReplaceAbsent(FileName(Testcase, n), "map_", "");
  }

  lemma ExecMapIsNoPmMap(n: Name)
    requires WellFormed(n)
    ensures !Contains(FileName(ExecMap, n), "pm_map")
  {
    hide Contains;
    NameChars(n);
    NoPmInMap("_" + Print(n) + ".testcase");
    assert FileName(ExecMap, n) == "map" + ("_" + Print(n) + ".testcase");
  }

  lemma NoLeadInTestcase(n: Name)
    requires WellFormed(n)
    ensures !Contains(FileName(Testcase, n), "map_") && FileName(Testcase, n) == Print(n) + ".testcase"
  {
    assert "" + Print(n) == Print(n);
    NameChars(n);
    Absent(FileName(Testcase, n), "map_", 0);
  }

  lemma ContainsPmMap(n: Name)
    ensures Contains(FileName(PmMap, n), "pm_map")
  {
    hide Contains;
    var t := "_" + Print(n) + ".testcase";
    assert FileName(PmMap, n) == "" + "pm_map" + t;
    ContainsAt("", "pm_map", t);
  }

  // ---------- What is kept ----------

  lemma {:induction false} DupsAreListed(dir: seq<Listed>)
    ensures forall n :: n in Dups(dir) ==> exists e :: e in dir && e.kind.PmMap? && e.name == n
  {
    if dir != [] {
      var rest, e := dir[..|dir| - 1], dir[|dir| - 1];
      DupsAreListed(rest);
      forall n | n in Dups(dir)
        ensures exists f :: f in dir && f.kind.PmMap? && f.name == n
      {
        if n in Dups(rest) {
          var f :| f in rest && f.kind.PmMap? && f.name == n;
          assert f in dir;
        } else {
          assert e in dir;
        }
      }
    }
  }

  /** The testcases that are not duplicates have pairwise different PM maps. */
  lemma {:induction false} KeptAreDistinct(dir: seq<Listed>, i: nat, j: nat)
    requires i < j < |dir| && dir[i].kind.PmMap? && dir[j].kind.PmMap?
    requires dir[j].name !in Dups(dir)
    ensures dir[i].content != dir[j].content
  {
    var rest := dir[..|dir| - 1];
    if j < |dir| - 1 {
      KeptAreDistinct(rest, i, j);
    } else {
      assert rest[i] in rest;
    }
  }

  /** The last file's testcase is not a duplicate of anything before it: its map is listed once only. */
  lemma LastIsNoDup(dir: seq<Listed>)
    requires IsListing(dir) && dir != [] && dir[|dir| - 1].kind.PmMap?
    ensures dir[|dir| - 1].name !in Dups(dir[..|dir| - 1])
  {
    var rest, last := dir[..|dir| - 1], dir[|dir| - 1];
    DupsAreListed(rest);
    hide Dups;
    forall e | e in rest && e.kind.PmMap?
      ensures e.name != last.name
    {
      var i :| 0 <= i < |rest| && rest[i] == e;
      assert dir[i] == e;
    }
  }

  lemma EarlierIsNoDup(dir: seq<Listed>, e: Listed)
    requires IsListing(dir) && dir != [] && e in dir[..|dir| - 1] && e.kind.PmMap?
    requires e.name !in Dups(dir[..|dir| - 1])
    ensures e.name !in Dups(dir)
  {
    var rest, last := dir[..|dir| - 1], dir[|dir| - 1];
    var i :| 0 <= i < |rest| && rest[i] == e;
    assert dir[i] == e;
  }

  /** Every PM map has a copy that is not a duplicate. */
  lemma {:induction false} KeptCover(dir: seq<Listed>, c: Content) returns (e: Listed)
    requires IsListing(dir) && c in PmContents(dir)
    ensures e in dir && e.kind.PmMap? && e.content == c && e.name !in Dups(dir)
  {
    var rest, last := dir[..|dir| - 1], dir[|dir| - 1];
    assert dir == rest + [last];
    if c in PmContents(rest) {
      e := KeptCover(rest, c);
      EarlierIsNoDup(dir, e);
    } else {
      e := last;
      LastIsNoDup(dir);
    }
  }

  /** The PM maps of the testcases that are not dropped. */
  function KeptContents(dir: seq<Listed>, dropped: set<Name>): set<Content> {
    set e | e in dir && e.kind.PmMap? && e.name !in dropped :: e.content
  }

  /** Dropping the duplicates loses no PM map. */
  lemma DropDuplicatesKeepsContents(dir: seq<Listed>)
    requires IsListing(dir)
    ensures KeptContents(dir, Dups(dir)) == PmContents(dir)
  {
    forall c | c in PmContents(dir)
      ensures c in KeptContents(dir, Dups(dir))
    {
      var e := KeptCover(dir, c);
    }
  }

  // ---------- main ----------

  /** The names of the PM maps with content `c`, in listing order. */
  function NamesWith(dir: seq<Listed>, c: Content): seq<Name> {
    if dir == [] then []
    else
      var e := dir[|dir| - 1];
      NamesWith(dir[..|dir| - 1], c) + (if e.kind.PmMap? && e.content == c then [e.name] else [])
  }

  lemma {:induction false} NamesWithEmpty(dir: seq<Listed>, c: Content)
    ensures NamesWith(dir, c) == [] <==> c !in PmContents(dir)
  {
    if dir != [] {
      NamesWithEmpty(dir[..|dir| - 1], c);
      assert dir == dir[..|dir| - 1] + [dir[|dir| - 1]];
    }
  }

  function Tail(names: seq<Name>): seq<Name> {
    if names == [] then [] else names[1..]
  }

  /** A duplicate is what comes after the first name of its group. */
  lemma {:induction false} DupsAreTails(dir: seq<Listed>, n: Name)
    ensures n in Dups(dir) <==> exists c :: c in PmContents(dir) && n in Tail(NamesWith(dir, c))
  {
    if dir != [] {
      var rest, e := dir[..|dir| - 1], dir[|dir| - 1];
      assert dir == rest + [e];
      DupsAreTails(rest, n);
      forall c
        ensures n in Tail(NamesWith(dir, c)) <==>
                n in Tail(NamesWith(rest, c))
                || (n == e.name && e.kind.PmMap? && e.content == c && c in PmContents(rest))
      {
        TailNext(dir, n, c);
      }
      if n in Dups(rest) {
        var c :| c in PmContents(rest) && n in Tail(NamesWith(rest, c));
        assert c in PmContents(dir);
      } else if n in Dups(dir) {
        assert e.content in PmContents(dir);
      }
      if exists c :: c in PmContents(dir) && n in Tail(NamesWith(dir, c)) {
        var c :| c in PmContents(dir) && n in Tail(NamesWith(dir, c));
        NamesWithEmpty(rest, c);
      }
    }
  }

  lemma TailNext(dir: seq<Listed>, n: Name, c: Content)
    requires dir != []
    ensures var rest, e := dir[..|dir| - 1], dir[|dir| - 1];
            n in Tail(NamesWith(dir, c)) <==>
            n in Tail(NamesWith(rest, c)) || (n == e.name && e.kind.PmMap? && e.content == c && c in PmContents(rest))
  {
    var rest, e := dir[..|dir| - 1], dir[|dir| - 1];
    NamesWithEmpty(rest, c);
    hide PmContents, Tail;
    TailSnoc(NamesWith(rest, c), e.name);
    TailEmpty();
    assert NamesWith(rest, c) + [] == NamesWith(rest, c);
  }

  lemma TailEmpty()
    ensures Tail([]) == []
  {
  }

  lemma TailSnoc(names: seq<Name>, x: Name)
    ensures Tail(names + [x]) == if names == [] then [] else Tail(names) + [x]
  {
  }

  ghost predicate Grouped(dir: seq<Listed>, hash2filename: map<Content, seq<Name>>) {
    && hash2filename.Keys == PmContents(dir)
    && forall c :: c in hash2filename ==> hash2filename[c] == NamesWith(dir, c)
  }

  lemma GroupNext(dir: seq<Listed>, i: nat, c: Content)
    requires i < |dir|
    ensures PmContents(dir[..i + 1]) == PmContents(dir[..i]) + if dir[i].kind.PmMap? then {dir[i].content} else {}
    ensures NamesWith(dir[..i + 1], c)
            == NamesWith(dir[..i], c) + if dir[i].kind.PmMap? && dir[i].content == c then [dir[i].name] else []
  {
    assert dir[..i + 1][..i] == dir[..i];
    assert dir[..i + 1] == dir[..i] + [dir[i]];
  }

  lemma GroupedNext(dir: seq<Listed>, i: nat, hash2filename: map<Content, seq<Name>>)
    requires i < |dir| && Grouped(dir[..i], hash2filename)
    ensures !dir[i].kind.PmMap? ==> Grouped(dir[..i + 1], hash2filename)
    ensures var c := dir[i].content;
            var entered := if c in hash2filename then hash2filename else hash2filename[c := []];
            dir[i].kind.PmMap? ==> Grouped(dir[..i + 1], entered[c := entered[c] + [dir[i].name]])
  {
    hide NamesWith, PmContents;
    forall c
      ensures NamesWith(dir[..i + 1], c)
              == NamesWith(dir[..i], c) + if dir[i].kind.PmMap? && dir[i].content == c then [dir[i].name] else []
    {
      GroupNext(dir, i, c);
    }
    GroupNext(dir, i, dir[i].content);
    NamesWithEmpty(dir[..i], dir[i].content);
  }

  /**
   The whole of `pmfuzz-cmin`: groups the PM maps by content, collects all but the first of each group,
   and copies the testcases that are not among them.
   */
  method Minimize(mapDir: seq<Listed>, inDir: seq<Name>) returns (copied: seq<Name>)
    ensures forall n :: n in copied <==> n in inDir && n !in Dups(mapDir)
  {
    hide Dups;
    var hash2filename := GroupByHash(mapDir);
    var duplicates := CollectDuplicates(mapDir, hash2filename);
    copied := [];
    var i := 0;
    while i < |inDir|
      invariant 0 <= i <= |inDir|
      invariant forall n :: n in copied <==> n in inDir[..i] && n !in Dups(mapDir)
    {
      if inDir[i] !in duplicates {
        copied := copied + [inDir[i]];
      }
      assert inDir[..i + 1] == inDir[..i] + [inDir[i]];
      i := i + 1;
    }
    assert inDir[..i] == inDir;
  }

  method GroupByHash(mapDir: seq<Listed>) returns (hash2filename: map<Content, seq<Name>>)
    ensures Grouped(mapDir, hash2filename)
  {
    hash2filename := map[];
    var i := 0;
    while i < |mapDir|
      invariant 0 <= i <= |mapDir|
      invariant Grouped(mapDir[..i], hash2filename)
    {
      var e := mapDir[i];
      GroupedNext(mapDir, i, hash2filename);
      if e.kind.PmMap? {
        if e.content !in hash2filename {
          hash2filename := hash2filename[e.content := []];
        }
        hash2filename := hash2filename[e.content := hash2filename[e.content] + [e.name]];
      }
      i := i + 1;
    }
    assert mapDir[..i] == mapDir;
  }

  method CollectDuplicates(mapDir: seq<Listed>, hash2filename: map<Content, seq<Name>>) returns (duplicates: seq<Name>)
    requires Grouped(mapDir, hash2filename)
    ensures forall n :: n in duplicates <==> n in Dups(mapDir)
  {
    duplicates := [];
    var rest := hash2filename.Keys;
    while rest != {}
      invariant rest <= hash2filename.Keys
      invariant forall n :: n in duplicates <==>
                  exists c :: c in hash2filename.Keys - rest && n in Tail(NamesWith(mapDir, c))
      decreases rest
    {
      var c :| c in rest;
      ghost var before := duplicates;
      if |hash2filename[c]| > 1 {
        duplicates := duplicates + hash2filename[c][1..];
      }
      assert duplicates == before + Tail(NamesWith(mapDir, c));
      assert hash2filename.Keys - (rest - {c}) == (hash2filename.Keys - rest) + {c};
      rest := rest - {c};
    }
    forall n
      ensures n in duplicates <==> n in Dups(mapDir)
    {
      DupsAreTails(mapDir, n);
      assert hash2filename.Keys - rest == PmContents(mapDir);
    }
  }

  /**
   With every PM map's testcase in the input directory: the copied testcases have pairwise different PM
   maps, every testcase without a PM map is copied, and no PM map is lost.
   */
  lemma CopiedCorpus(mapDir: seq<Listed>, inDir: seq<Name>, copied: seq<Name>)
    requires IsListing(mapDir)
    requires forall e :: e in mapDir && e.kind.PmMap? ==> e.name in inDir
    requires forall n :: n in copied <==> n in inDir && n !in Dups(mapDir)
    ensures forall i, j :: 0 <= i < j < |mapDir| && mapDir[i].kind.PmMap? && mapDir[j].kind.PmMap?
                           && mapDir[i].name in copied && mapDir[j].name in copied
                           ==> mapDir[i].content != mapDir[j].content
    ensures forall n :: n in inDir && (forall e :: e in mapDir && e.kind.PmMap? ==> e.name != n) ==> n in copied
    ensures (set e | e in mapDir && e.kind.PmMap? && e.name in copied :: e.content) == PmContents(mapDir)
  {
    forall i, j | 0 <= i < j < |mapDir| && mapDir[i].kind.PmMap? && mapDir[j].kind.PmMap?
                  && mapDir[i].name in copied && mapDir[j].name in copied
      ensures mapDir[i].content != mapDir[j].content
    {
      KeptAreDistinct(mapDir, i, j);
    }
    DupsAreListed(mapDir);
    DropDuplicatesKeepsContents(mapDir);
    assert (set e | e in mapDir && e.kind.PmMap? && e.name in copied :: e.content)
           == KeptContents(mapDir, Dups(mapDir));
  }
}
