/** The examples in the documentation of src/pmfuzz/handlers/name_handler.py, on the literal strings. */
module Examples {
  import opened Names
  import opened FileNames
  import opened Lineage
  import opened StageDirs
  import opened SelectIds

  // ---------- The names used there ----------

  const A := Sub(Sub(Root("1"), Comma, "2"), Comma, "2")
  const B := Sub(Sub(Sub(Root("010"), Dot, "016"), Comma, "012"), Dot, "516")
  const C := Sub(Sub(Root("010"), Comma, "012"), Comma, "013")

  lemma NameA()
    ensures WellFormed(A) && Print(A) == "id=1,id=2,id=2" && Print(A.parent) == "id=1,id=2"
  {
    assert Print(Root("1")) == "id=1";
    assert Print(Sub(Root("1"), Comma, "2")) == "id=1,id=2";
  }

  lemma NameB()
    ensures WellFormed(B) && Print(B) == "id=010.id=016,id=012.id=516"
  {
    assert Print(Root("010")) == "id=010";
    assert Print(Sub(Root("010"), Dot, "016")) == "id=010.id=016";
    assert Print(Sub(Sub(Root("010"), Dot, "016"), Comma, "012")) == "id=010.id=016,id=012";
  }

  lemma NameC()
    ensures WellFormed(C) && Print(C) == "id=010,id=012,id=013" && Ancestors(C) == 2
  {
    assert Print(Root("010")) == "id=010";
    assert Print(Sub(Root("010"), Comma, "012")) == "id=010,id=012";
  }

  // ---------- get_testcase_parent ----------

  method ParentOf(s: string, ghost k: Kind, ghost n: Name) returns (result: string)
    requires WellFormed(n) && s == FileName(k, n) && (k.Testcase? || k.ExecMap?)
    ensures result == if n.Root? then "" else FileName(k, n.parent)
  {
    hide GetExtension, Replace, Print, BeforeLast, Delims;
    CleanFile(k, n);
    ParentPart(k, n);
    result := GetTestcaseParent(s);
  }

  lemma Text(n: Name, p: string)
    requires Print(n) == p
    ensures FileName(Testcase, n) == p + ".testcase" && FileName(ExecMap, n) == "map_" + p + ".testcase"
    ensures FileName(MinTestcase, n) == p + ".min.testcase" && FileName(PmMap, n) == "pm_map_" + p + ".testcase"
    ensures FileName(Clean, n) == p && FileName(Deleted, n) == p + ".deleted"
    ensures FileName(CrashSite, n) == p + ".crash_site" && FileName(CmprCrashSite, n) == p + ".crash_site.tar.gz"
    ensures FileName(Image, n) == p + ".pm_pool" && FileName(CmprImage, n) == p + ".pm_pool.tar.gz"
  {
    assert "" + p == p && p + "" == p;
  }

  method ParentOfA() returns (result: string)
    ensures result == "id=1,id=2.testcase"
  {
    NameA();
    Text(A, "id=1,id=2,id=2");
    Text(A.parent, "id=1,id=2");
    hide *;
    assert "id=1,id=2,id=2" + ".testcase" == "id=1,id=2,id=2.testcase";
    result := ParentOf("id=1,id=2,id=2.testcase", Testcase, A);
    assert "id=1,id=2" + ".testcase" == "id=1,id=2.testcase";
  }

  lemma MapTexts()
    ensures "map_" + "id=1,id=2,id=2" + ".testcase" == "map_id=1,id=2,id=2.testcase"
    ensures "map_" + "id=1,id=2" + ".testcase" == "map_id=1,id=2.testcase"
  {
  }

  method ParentOfMapOfA() returns (result: string)
    ensures result == "map_id=1,id=2.testcase"
  {
    NameA();
    Text(A, "id=1,id=2,id=2");
    Text(A.parent, "id=1,id=2");
    hide *;
    MapTexts();
    result := ParentOf("map_id=1,id=2,id=2.testcase", ExecMap, A);
  }

  method ParentOfRoot() returns (c: string)
    ensures c == ""
  {
    var n := Root("2");
    assert WellFormed(n) && Print(n) == "id=2";
    Text(n, "id=2");
    hide *;
    assert "id=2" + ".testcase" == "id=2.testcase";
    c := ParentOf("id=2.testcase", Testcase, n);
  }

  method ParentsOfB(delim: Delim) returns (a: string)
    ensures a == "id=010.id=016,id=012.id=516.testcase"
  {
    PartOfB(delim);
    var p := "id=010.id=016,id=012.id=516" + [delim.Char()] + "id=013";
    Text(Sub(B, delim, "013"), p);
    NameB();
    Text(B, "id=010.id=016,id=012.id=516");
    hide *;
    a := ParentOf(p + ".testcase", Testcase, Sub(B, delim, "013"));
    assert "id=010.id=016,id=012.id=516" + ".testcase" == "id=010.id=016,id=012.id=516.testcase";
  }

  lemma PartOfB(d: Delim)
    ensures WellFormed(Sub(B, d, "013"))
    ensures Print(Sub(B, d, "013")) == "id=010.id=016,id=012.id=516" + [d.Char()] + "id=013"
  {
    NameB();
  }

  // ---------- ancestor_cnt, iter_cnt, get_extension ----------

  lemma GenerationOfText(n: Name, p: string, s: string)
    requires WellFormed(n) && Print(n) == p && s == p + ".testcase"
    ensures AncestorCnt(s) == Some(Ancestors(n)) && IterCnt(s) == Some(Ancestors(n) + 1)
  {
    Text(n, p);
    GenerationOfFile(Testcase, n);
  }

  lemma Generations()
    ensures IterCnt("id=010,id=012,id=013.testcase") == Some(3)
    ensures AncestorCnt("id=010,id=012,id=013.testcase") == Some(2)
  {
    NameC();
    hide *;
    assert "id=010,id=012,id=013" + ".testcase" == "id=010,id=012,id=013.testcase";
    GenerationOfText(C, "id=010,id=012,id=013", "id=010,id=012,id=013.testcase");
  }

  lemma GenerationsOfB()
    ensures AncestorCnt("id=010.id=016,id=012.id=516,id=013.testcase") == Some(2)
  {
    var n := Sub(B, Comma, "013");
    PartOfB(Comma);
    assert Ancestors(n) == 2 && Comma.Char() == ',';
    hide *;
    var p := "id=010.id=016,id=012.id=516" + [','] + "id=013";
    assert p + ".testcase" == "id=010.id=016,id=012.id=516,id=013.testcase";
    GenerationOfText(n, p, "id=010.id=016,id=012.id=516,id=013.testcase");
  }

  // ---------- get_lineage ----------

  const L := Sub(Sub(Root("19"), Comma, "928"), Comma, "193")
  const M := Sub(Sub(Sub(Root("19"), Dot, "10"), Comma, "928"), Comma, "193")

  lemma NameL()
    ensures WellFormed(L) && Print(L) == "id=19,id=928,id=193" && Heads(L) == ["19", "928", "193"]
  {
    assert Print(Root("19")) == "id=19";
    assert Print(Sub(Root("19"), Comma, "928")) == "id=19,id=928";
    assert Heads(Sub(Root("19"), Comma, "928")) == ["19", "928"];
  }

  lemma NameM()
    ensures WellFormed(M) && Print(M) == "id=19.id=10,id=928,id=193" && Heads(M) == ["19", "928", "193"]
  {
    var p := Sub(Root("19"), Dot, "10");
    assert Print(Root("19")) == "id=19" && Print(p) == "id=19.id=10" && Heads(p) == ["19"];
    assert Print(Sub(p, Comma, "928")) == "id=19.id=10,id=928";
    assert Heads(Sub(p, Comma, "928")) == ["19", "928"];
  }

  lemma Numbers()
    ensures Value("19") == 19 && Value("928") == 928 && Value("193") == 193
  {
    assert "19"[..1] == "1" && "1"[..0] == "" && Value("1") == 1;
    assert "928"[..2] == "92" && "92"[..1] == "9" && "9"[..0] == "" && Value("9") == 9 && Value("92") == 92;
    assert "193"[..2] == "19";
  }

  method LineageOf(s: string, ghost n: Name) returns (lineage: Option<seq<nat>>)
    requires WellFormed(n) && s == FileName(Testcase, n)
    ensures (forall i :: 0 <= i < |Heads(n)| ==> IsId(Heads(n)[i])) && lineage == Some(Values(Heads(n)))
  {
    hide GetMetadataFiles, Tokens, UpTo, Heads, IsId, ReadIds;
    MetadataIsFamily(Testcase, n, false);
    assert Clean in ALL_KINDS && Family(n, false)[Clean] == FileName(Clean, n) == Print(n);
    TokensOfName(n);
    ReadTokensOfIds(Tokens(Print(n), {','}), Heads(n));
    lineage := GetLineage(s);
  }

  lemma ThreeNumbers(ids: seq<string>)
    requires ids == ["19", "928", "193"] && forall i :: 0 <= i < |ids| ==> IsId(ids[i])
    ensures Values(ids) == [19, 928, 193]
  {
    Numbers();
    hide Value;
  }

  method LineageOfL() returns (lineage: Option<seq<nat>>)
    ensures lineage == Some([19, 928, 193])
  {
    NameL();
    Text(L, "id=19,id=928,id=193");
    hide *;
    assert "id=19,id=928,id=193" + ".testcase" == "id=19,id=928,id=193.testcase";
    lineage := LineageOf("id=19,id=928,id=193.testcase", L);
    ThreeNumbers(Heads(L));
  }

  method LineageOfM() returns (lineage: Option<seq<nat>>)
    ensures lineage == Some([19, 928, 193])
  {
    NameM();
    Text(M, "id=19.id=10,id=928,id=193");
    hide *;
    assert "id=19.id=10,id=928,id=193" + ".testcase" == "id=19.id=10,id=928,id=193.testcase";
    lineage := LineageOf("id=19.id=10,id=928,id=193.testcase", M);
    ThreeNumbers(Heads(M));
  }

  // ---------- get_metadata_files ----------

  /** The family of `id=010`, from any of the four names in the documentation. */
  lemma FamilyOfTen(s: string)
    requires s in {"map_id=010.testcase", "id=010.testcase", "id=010.pm_pool", "id=010.pm_pool.tar.gz"}
    ensures GetMetadataFiles(s, true) == Some(map[
              Testcase := "id=010.testcase",
              Clean := "id=010",
              MinTestcase := "id=010.min.testcase",
              PmMap := "pm_map_id=010.testcase",
              ExecMap := "map_id=010.testcase",
              Deleted := "id=010.deleted",
              CrashSite := "id=010.crash_site",
              CmprCrashSite := "id=010.crash_site.tar.gz",
              Image := "id=010.pm_pool",
              CmprImage := "id=010.pm_pool.tar.gz"])
  {
    var n := Root("010");
    assert WellFormed(n) && Print(n) == "id=010";
    Text(n, "id=010");
    var k := if s == "map_id=010.testcase" then ExecMap else if s == "id=010.testcase" then Testcase
             else if s == "id=010.pm_pool" then Image else CmprImage;
    hide *;
    FourNames();
    MoreNames();
    MetadataIsFamily(k, n, true);
    FamilyIs(n);
  }

  lemma FamilyIs(n: Name)
    ensures Family(n, true) == map[
              Testcase := FileName(Testcase, n), Clean := FileName(Clean, n), MinTestcase := FileName(MinTestcase, n),
              PmMap := FileName(PmMap, n), ExecMap := FileName(ExecMap, n), Deleted := FileName(Deleted, n),
              CrashSite := FileName(CrashSite, n), CmprCrashSite := FileName(CmprCrashSite, n),
              Image := FileName(Image, n), CmprImage := FileName(CmprImage, n)]
  {
    hide FileName;
  }

  lemma FourNames()
    ensures "id=010" + ".testcase" == "id=010.testcase" && "map_" + "id=010" + ".testcase" == "map_id=010.testcase"
    ensures "id=010" + ".pm_pool" == "id=010.pm_pool" && "id=010" + ".pm_pool.tar.gz" == "id=010.pm_pool.tar.gz"
  {
  }

  lemma MoreNames()
    ensures "id=010" + ".min.testcase" == "id=010.min.testcase"
    ensures "pm_map_" + "id=010" + ".testcase" == "pm_map_id=010.testcase" && "id=010" + ".deleted" == "id=010.deleted"
    ensures "id=010" + ".crash_site" == "id=010.crash_site"
    ensures "id=010" + ".crash_site.tar.gz" == "id=010.crash_site.tar.gz"
  {
  }

  // ---------- is_tc, is_cmpr_crash_site ----------

  lemma Recognised()
    ensures IsRegex(Testcase, "id=010,id=012,id=013.testcase")
    ensures IsRegex(MinTestcase, "id=010,id=012,id=013.min.testcase")
    ensures !IsRegex(Testcase, "id=010,id=012,id=013.min.testcase")
  {
    var p := "id=010,id=012,id=013";
    NameC();
    Text(C, p);
    hide *;
    assert p + ".testcase" == "id=010,id=012,id=013.testcase";
    RecognisedIff(Testcase, p + ".testcase");
    assert p + ".min.testcase" == "id=010,id=012,id=013.min.testcase";
    RecognisedIff(MinTestcase, p + ".min.testcase");
    NotThatKind(C, p);
  }

  /** A minimised testcase is no testcase. */
  lemma NotThatKind(n: Name, p: string)
    requires WellFormed(n) && Print(n) == p
    ensures !IsRegex(Testcase, p + ".min.testcase")
  {
    var s := p + ".min.testcase";
    assert s[|s| - 9..] == ".testcase";
    Text(n, p);
    hide IsRegex, Print, WellFormed, FileName;
    RecognisedIff(Testcase, s);
    if IsRegex(Testcase, s) {
      var m :| WellFormed(m) && FileName(Testcase, m) == s;
      FileNameInjective(Testcase, m, MinTestcase, n);
    }
  }

  /** Two ids without a delimiter between them are no part. */
  lemma NoDelimiter()
    ensures !Accepts("id=010id=19,id=012,id=013")
  {
    hide Tokens, Accepts;
    var both := {',', '.'};
    var s := "id=010id=19";
    OneToken(s, both);
    TokensAppend(s, ',', "id=012", both);
    TokensAppend(s + [','] + "id=012", ',', "id=013", both);
    assert s + [','] + "id=012" + [','] + "id=013" == "id=010id=19,id=012,id=013";
    assert s[6] == 'i';
    BadPart("id=010id=19,id=012,id=013", s);
  }

  /** Nor is a number alone. */
  lemma NumberAlone()
    ensures !Accepts("id=000011.id=000046.79")
  {
    hide Tokens, Accepts;
    TokensAppend("id=000011.id=000046", '.', "79", {',', '.'});
    assert "id=000011.id=000046" + ['.'] + "79" == "id=000011.id=000046.79";
    BadPart("id=000011.id=000046.79", "79");
  }

  lemma BadPart(s: string, t: string)
    requires t in Tokens(s, {',', '.'}) && !IsPart(t)
    ensures !Accepts(s)
  {
    hide Tokens, Accepts;
    AcceptsParts(s);
  }

  // ---------- Directories and queue entries ----------

  lemma Directory()
    ensures OutdirName(2, 10) == "stage=2,iter=10"
  {
    assert Decimal(2) == "2" && Decimal(1) == "1" && Decimal(10) == "10";
  }

  lemma QueueEntry()
    ensures CleanTcName("id:000012,src:000001,op:havoc") == Some("id=000012.testcase")
  {
    CleanQueueName("000012", ",src:000001,op:havoc");
    assert "id:" + "000012" + ",src:000001,op:havoc" == "id:000012,src:000001,op:havoc";
    hide CleanTcName;
    assert "id=" + "000012" + ".testcase" == "id=000012.testcase";
  }
}
