/**
 Crash sites of a stage with the same image hash: only the first listed stays.
 Source: src/pmfuzz/stages/dedup.py:586-619.
 */
module CrashSites {
  import opened Names
  import opened FileNames
  import opened Corpus
  import opened DedupStage
  import opened Listings

  type Hash = string

  predicate IsRepeat(list: seq<Name>, db: map<Name, Hash>, i: nat)
    requires i < |list| && forall n :: n in list ==> n in db
  {
    exists j :: 0 <= j < i && db[list[j]] == db[list[i]]
  }

  /** The crash sites of the listing whose hash was listed before. */
  function Repeated(list: seq<Name>, db: map<Name, Hash>): set<Name>
    requires forall n :: n in list ==> n in db
  {
    set i | 0 <= i < |list| && IsRepeat(list, db, i) :: list[i]
  }

  /** Each hash that occurs has exactly one crash site that stays. */
  lemma OnePerHash(list: seq<Name>, names: set<Name>, db: map<Name, Hash>, n: Name) returns (kept: Name)
    requires Lists(list, names) && n in names && forall n :: n in list ==> n in db
    ensures kept in names && kept !in Repeated(list, db) && db[kept] == db[n]
    ensures forall m :: m in names && m !in Repeated(list, db) && db[m] == db[n] ==> m == kept
  {
    var i :| 0 <= i < |list| && list[i] == n;
    var first := FirstWith(list, db, i);
    kept := list[first];
    forall k | first < k < |list| && db[list[k]] == db[n]
      ensures list[k] in Repeated(list, db)
    {
      assert IsRepeat(list, db, k);
    }
  }

  lemma {:induction false} FirstWith(list: seq<Name>, db: map<Name, Hash>, i: nat) returns (first: nat)
    requires i < |list| && forall n :: n in list ==> n in db
    ensures first <= i && db[list[first]] == db[list[i]]
    ensures forall j :: 0 <= j < first ==> db[list[j]] != db[list[i]]
    decreases i
  {
    if j :| 0 <= j < i && db[list[j]] == db[list[i]] {
      first := FirstWith(list, db, j);
    } else {
      first := i;
    }
  }

  function Archives(d: Dir): set<Name> {
    set f | f in d && f.kind.CmprCrashSite? :: f.name
  }

  function WithoutArchives(d: Dir, names: set<Name>): Dir {
    map f | f in d && !(f.kind.CmprCrashSite? && f.name in names) :: d[f]
  }

  /**
   `deduplicate_crash_sites_lcl` over a listing of the image directory's crash sites. It aborts, before
   anything is removed, on a crash site whose hash is not in the database.
   */
  method DeduplicateCrashSitesLcl(img: Directory, list: seq<Name>, db: map<Name, Hash>) returns (ok: bool)
    requires Lists(list, Archives(img.files))
    modifies img
    ensures ok <==> forall n :: n in list ==> n in db
    ensures !ok ==> img.files == old(img.files)
    ensures ok ==> img.files == WithoutArchives(old(img.files), Repeated(list, db))
    ensures forall f :: f in img.files ==> f in old(img.files) && img.files[f] == old(img.files)[f]
    ensures forall f :: f in old(img.files) && !f.kind.CmprCrashSite? ==> f in img.files
    ensures ok ==> forall i :: 0 <= i < |list| ==>
              (File(CmprCrashSite, list[i]) in img.files <==> forall j :: 0 <= j < i ==> db[list[j]] != db[list[i]])
  {
    hide Repeated, IsRepeat, WithoutArchives;
    RepeatedNone(db);
    var hashSeen: set<Hash> := {};
    var filesToDrop: seq<Name> := [];
    var i := 0;
    while i < |list|
      invariant 0 <= i <= |list| && img.files == old(img.files)
      invariant forall j :: 0 <= j < i ==> list[j] in db
      invariant hashSeen == set j | 0 <= j < i :: db[list[j]]
      invariant forall n :: n in filesToDrop <==> n in Repeated(list[..i], db)
      invariant forall n :: n in filesToDrop ==> n in list[..i]
      invariant forall j, k :: 0 <= j < k < |filesToDrop| ==> filesToDrop[j] != filesToDrop[k]
    {
      var n := list[i];
      if n !in db {
        return false;
      }
      RepeatedNext(list, Archives(img.files), db, i);
      if db[n] !in hashSeen {
        hashSeen := hashSeen + {db[n]};
      } else {
        filesToDrop := filesToDrop + [n];
      }
      i := i + 1;
    }
    assert list[..i] == list;
    ghost var before := img.files;
    RemoveArchives(img, filesToDrop, Repeated(list, db));
    FirstStays(list, db, before);
    ok := true;
  }

  /** An archive stays exactly if no crash site listed before it has its hash. */
  lemma FirstStays(list: seq<Name>, db: map<Name, Hash>, d: Dir)
    requires Lists(list, Archives(d)) && forall n :: n in list ==> n in db
    ensures var after := WithoutArchives(d, Repeated(list, db));
            && (forall f :: f in after ==> f in d && after[f] == d[f])
            && (forall f :: f in d && !f.kind.CmprCrashSite? ==> f in after)
            && forall i :: 0 <= i < |list| ==>
                 (File(CmprCrashSite, list[i]) in after <==> forall j :: 0 <= j < i ==> db[list[j]] != db[list[i]])
  {
    var after := WithoutArchives(d, Repeated(list, db));
    forall i | 0 <= i < |list|
      ensures File(CmprCrashSite, list[i]) in after <==> forall j :: 0 <= j < i ==> db[list[j]] != db[list[i]]
    {
      assert list[i] in Archives(d);
      assert File(CmprCrashSite, list[i]) in d;
      if list[i] in Repeated(list, db) {
        var k :| 0 <= k < |list| && IsRepeat(list, db, k) && list[k] == list[i];
      } else {
        assert !IsRepeat(list, db, i);
      }
    }
  }

  lemma RepeatedNone(db: map<Name, Hash>)
    ensures Repeated([], db) == {}
  {
  }

  lemma RepeatInPrefix(list: seq<Name>, db: map<Name, Hash>, m: nat, k: nat)
    requires k < m <= |list| && forall n :: n in list ==> n in db
    ensures IsRepeat(list[..m], db, k) <==> IsRepeat(list, db, k)
  {
    assert forall j :: 0 <= j < m ==> list[..m][j] == list[j];
  }

  lemma SeenHash(list: seq<Name>, db: map<Name, Hash>, i: nat)
    requires i < |list| && forall n :: n in list ==> n in db
    ensures IsRepeat(list, db, i) <==> db[list[i]] in (set j | 0 <= j < i :: db[list[j]])
  {
  }

  lemma RepeatedNext(list: seq<Name>, names: set<Name>, db: map<Name, Hash>, i: nat)
    requires i < |list| && Lists(list, names) && forall j :: 0 <= j <= i ==> list[j] in db
    ensures list[i] !in list[..i]
    ensures Repeated(list[..i + 1], db)
            == Repeated(list[..i], db) + if db[list[i]] in (set j | 0 <= j < i :: db[list[j]]) then {list[i]} else {}
  {
    hide IsRepeat;
    var a, b := list[..i], list[..i + 1];
    assert b[..i] == a;
    SeenHash(b, db, i);
    assert (set j | 0 <= j < i :: db[b[j]]) == set j | 0 <= j < i :: db[list[j]];
    forall k | 0 <= k < i
      ensures IsRepeat(a, db, k) <==> IsRepeat(b, db, k)
    {
      RepeatInPrefix(b, db, i, k);
    }
    assert forall k :: 0 <= k < i ==> a[k] == b[k];
  }

  method RemoveArchives(img: Directory, drop: seq<Name>, ghost names: set<Name>)
    requires forall n :: n in drop <==> n in names
    modifies img
    ensures img.files == WithoutArchives(old(img.files), names)
  {
    var i := 0;
    while i < |drop|
      invariant 0 <= i <= |drop|
      invariant img.files == WithoutArchives(old(img.files), set n | n in drop[..i])
    {
      assert drop[..i + 1] == drop[..i] + [drop[i]];
      img.RemoveFiles(drop[i], [CmprCrashSite]);
      i := i + 1;
    }
    assert (set n | n in drop[..i]) == names;
  }
}
