/**
 Parents, generations and child names read off testcase names.
 Source: src/pmfuzz/handlers/name_handler.py.
 */
module Lineage {
  import opened Names
  import opened FileNames

  // ---------- Splitting ----------

  /** `re.split` on single-character delimiters. */
  function Tokens(s: string, delims: set<char>): (ts: seq<string>)
    ensures |ts| == |Delims(s, delims)| + 1
  {
    if s == "" then [""]
    else
      var ts := Tokens(s[..|s| - 1], delims);
      var c := s[|s| - 1];
      if c in delims then ts + [""] else ts[..|ts| - 1] + [ts[|ts| - 1] + [c]]
  }

  /** The delimiters between the tokens. */
  function Delims(s: string, delims: set<char>): string {
    if s == "" then ""
    else
      var ds := Delims(s[..|s| - 1], delims);
      var c := s[|s| - 1];
      if c in delims then ds + [c] else ds
  }

  /** Tokens joined again, each by the delimiter that stood before it. */
  function Weave(ts: seq<string>, ds: string): string
    requires 0 < |ts| <= |ds| + 1
  {
    if |ts| == 1 then ts[0] else Weave(ts[..|ts| - 1], ds) + [ds[|ts| - 2]] + ts[|ts| - 1]
  }

  /** Everything before the last delimiter, or nothing when there is none. */
  function BeforeLast(s: string, delims: set<char>): string {
    if s == "" then ""
    else if s[|s| - 1] in delims then s[..|s| - 1]
    else BeforeLast(s[..|s| - 1], delims)
  }

  lemma {:induction false} WeavePrefix(ts: seq<string>, ds: string, es: string)
    requires 0 < |ts| <= |ds| + 1 && ds <= es
    ensures Weave(ts, ds) == Weave(ts, es)
  {
    if |ts| > 1 {
      WeavePrefix(ts[..|ts| - 1], ds, es);
    }
  }

  /** Splitting and joining gives the string back. */
  lemma {:induction false} WeaveTokens(s: string, delims: set<char>)
    ensures Weave(Tokens(s, delims), Delims(s, delims)) == s
  {
    if s != "" {
      var t, c := s[..|s| - 1], s[|s| - 1];
      WeaveTokens(t, delims);
      var ts, ds := Tokens(t, delims), Delims(t, delims);
      assert s == t + [c];
      if c in delims {
        assert (ts + [""])[..|ts|] == ts;
        WeavePrefix(ts, ds, ds + [c]);
        assert t + [c] + "" == s;
      } else {
        var us := ts[..|ts| - 1] + [ts[|ts| - 1] + [c]];
        assert us[..|us| - 1] == ts[..|ts| - 1];
        if |ts| > 1 {
          assert Weave(us, ds) == Weave(ts[..|ts| - 1], ds) + [ds[|ts| - 2]] + (ts[|ts| - 1] + [c]);
        }
      }
    }
  }

  /** No token holds a delimiter, and between them there is nothing else. */
  lemma {:induction false} TokensPlain(s: string, delims: set<char>)
    ensures forall t, c :: t in Tokens(s, delims) && c in t ==> c !in delims
    ensures forall c :: c in Delims(s, delims) ==> c in delims
  {
    if s != "" {
      TokensPlain(s[..|s| - 1], delims);
      var ts := Tokens(s[..|s| - 1], delims);
      assert ts[|ts| - 1] in ts;
      forall t, c | t in Tokens(s, delims) && c in t
        ensures c !in delims
      {
        if t !in ts && t != "" {
          assert t == ts[|ts| - 1] + [s[|s| - 1]];
        }
      }
    }
  }

  /** Joining all tokens but the last gives everything before the last delimiter. */
  lemma {:induction false} WeaveAllButLast(s: string, delims: set<char>)
    requires |Tokens(s, delims)| > 1
    ensures Weave(Tokens(s, delims)[..|Tokens(s, delims)| - 1], Delims(s, delims)) == BeforeLast(s, delims)
  {
    var t, c := s[..|s| - 1], s[|s| - 1];
    var ts, ds := Tokens(t, delims), Delims(t, delims);
    if c in delims {
      assert Tokens(s, delims)[..|ts|] == ts;
      WeaveTokens(t, delims);
      WeavePrefix(ts, ds, ds + [c]);
    } else {
      WeaveAllButLast(t, delims);
      assert Tokens(s, delims)[..|ts| - 1] == ts[..|ts| - 1];
    }
  }

  // ---------- get_testcase_parent ----------

  const EXT_LIST: seq<string> := ["testcase", "hash", "crash_site.tar.gz", "crash_site", "pm_pool.tar.gz", "pm_pool"]

  /** The first listed extension the name mentions, with its dot, or nothing. */
  function GetExtension(s: string): string {
    if Contains(s, EXT_LIST[0]) then "." + EXT_LIST[0]
    else if Contains(s, EXT_LIST[1]) then "." + EXT_LIST[1]
    else if Contains(s, EXT_LIST[2]) then "." + EXT_LIST[2]
    else if Contains(s, EXT_LIST[3]) then "." + EXT_LIST[3]
    else if Contains(s, EXT_LIST[4]) then "." + EXT_LIST[4]
    else if Contains(s, EXT_LIST[5]) then "." + EXT_LIST[5]
    else ""
  }

  /** The name without its extension; replacing nothing by nothing leaves it as it is. */
  function StripExtension(s: string): string {
    if GetExtension(s) == "" then s else Replace(s, GetExtension(s), "")
  }

  const ID_DELIMS: set<char> := {',', '.'}

  /** Splits off the ids, drops the last, and puts the others together again. */
  method GetTestcaseParent(testcase: string) returns (result: string)
    ensures var clean := StripExtension(testcase);
            result == if Delims(clean, ID_DELIMS) == "" then ""
                      else BeforeLast(clean, ID_DELIMS) + GetExtension(testcase)
  {
    result := "";
    var ext := GetExtension(testcase);
    var cleanName := StripExtension(testcase);
    var ids := Tokens(cleanName, ID_DELIMS);
    var delims := Delims(cleanName, ID_DELIMS);
    if |ids| > 1 {
      var parentIds := ids[..|ids| - 1];
      result := parentIds[0];
      var iter := 0;
      while iter < |parentIds| - 1
        invariant 0 <= iter <= |parentIds| - 1
        invariant result == Weave(parentIds[..iter + 1], delims)
      {
        assert parentIds[..iter + 2][..iter + 1] == parentIds[..iter + 1];
        result := result + [delims[iter]] + parentIds[iter + 1];
        iter := iter + 1;
      }
      assert parentIds[..iter + 1] == parentIds;
      WeaveAllButLast(cleanName, ID_DELIMS);
      result := result + ext;
    }
  }

  lemma {:induction false} BeforeLastAfter(s: string, c: char, t: string, delims: set<char>)
    requires c in delims && forall x :: x in t ==> x !in delims
    ensures BeforeLast(s + [c] + t, delims) == s && Delims(s + [c] + t, delims) != ""
  {
    var u := s + [c] + t;
    if t == "" {
      assert u[..|u| - 1] == s;
    } else {
      BeforeLastAfter(s, c, t[..|t| - 1], delims);
      assert u[..|u| - 1] == s + [c] + t[..|t| - 1];
      assert u[|u| - 1] == t[|t| - 1];
    }
  }

  lemma {:induction false} NoDelims(t: string, delims: set<char>)
    requires forall x :: x in t ==> x !in delims
    ensures Delims(t, delims) == ""
  {
    if t != "" {
      NoDelims(t[..|t| - 1], delims);
      assert t[|t| - 1] in t;
    }
  }

  lemma NoDotInside(b: string)
    requires 't' !in b
    ensures forall i: nat :: i < |b| ==> !OccursAt(b + ".testcase" + "", ".testcase", i)
  {
    var s := b + ".testcase" + "";
    forall i: nat | i < |b|
      ensures !OccursAt(s, ".testcase", i)
    {
      OccursChar(s, ".testcase", i, 1);
      if i + 1 < |b| {
        assert s[i + 1] == b[i + 1];
      } else {
        assert s[i + 1] == ".testcase"[0];
      }
    }
  }

  /** Removing a testcase's extension leaves what stands before it. */
  lemma CleanName(b: string)
    requires 't' !in b
    ensures GetExtension(b + ".testcase") == ".testcase"
    ensures Replace(b + ".testcase", ".testcase", "") == b
  {
    hide Contains, Replace, OccursAt;
    assert "." + "testcase" == ".testcase";
    assert b + "." + "testcase" + "" == b + ".testcase";
    ContainsAt(b + ".", "testcase", "");
    NoDotInside(b);
    Absent("", ".testcase", 0);
    ReplaceAfter(b, ".testcase", "", "");
    assert b + ".testcase" + "" == b + ".testcase";
    assert b + "" + "" == b;
  }

  lemma CleanFileName(k: Kind, n: Name)
    requires WellFormed(n) && (k.Testcase? || k.ExecMap? || k.PmMap?)
    ensures GetExtension(FileName(k, n)) == ".testcase"
    ensures StripExtension(FileName(k, n)) == Lead(k) + Print(n)
  {
    hide GetExtension, Replace, Print;
    NameChars(n);
    CleanName(Lead(k) + Print(n));
  }

  // ---------- Extensions of images and crash sites ----------

  /** A pattern that starts `te`, or `ha`, cannot start where these letters do not follow each other. */
  lemma NoPair(s: string, p: string)
    requires |p| >= 3
    requires forall i :: 0 <= i < |s| - 2 ==> s[i] != p[0] || s[i + 1] != p[1] || s[i + 2] != p[2]
    ensures !Contains(s, p)
  {
    ContainsIff(s, p);
    forall i: nat | i <= |s|
      ensures !OccursAt(s, p, i)
    {
      OccursChar(s, p, i, 0);
      OccursChar(s, p, i, 1);
      OccursChar(s, p, i, 2);
    }
  }

  /** `s` is a name and an extension in which no three letters start the pattern. */
  lemma NotInExtension(b: string, e: string, p: string)
    requires Plain(b) && |p| >= 3 && !NameChar(p[0])
    requires forall i :: 0 <= i < |e| - 2 ==> e[i] != p[0] || e[i + 1] != p[1] || e[i + 2] != p[2]
    ensures !Contains(b + e, p)
  {
    var s := b + e;
    forall i | 0 <= i < |s| - 2
      ensures s[i] != p[0] || s[i + 1] != p[1] || s[i + 2] != p[2]
    {
      if i < |b| {
        assert s[i] == b[i] && b[i] in b;
      } else {
        assert s[i] == e[i - |b|] && s[i + 1] == e[i - |b| + 1] && s[i + 2] == e[i - |b| + 2];
      }
    }
    NoPair(s, p);
  }

  /** In a crash site's extension neither `tes` nor `has` occurs. */
  lemma CrashSiteLetters(k: Kind)
    requires k.CrashSite? || k.CmprCrashSite?
    ensures var e := Ext(k); forall i :: 0 <= i < |e| - 2 ==> !(e[i] == 't' && e[i + 1] == 'e' && e[i + 2] == 's')
    ensures var e := Ext(k); forall i :: 0 <= i < |e| - 2 ==> !(e[i] == 'h' && e[i + 1] == 'a' && e[i + 2] == 's')
  {
    var e := Ext(k);
    assert forall i :: 0 <= i < |e| - 2 && e[i] == 't' && e[i + 1] == 'e' ==> i == 9 && e[11] == '.';
    assert forall i :: 0 <= i < |e| && e[i] == 'h' ==> i == 5 && e[6] == '_';
  }

  lemma CrashSiteExtension(k: Kind, b: string)
    requires Plain(b) && (k.CrashSite? || k.CmprCrashSite?)
    ensures GetExtension(b + Ext(k)) == Ext(k)
  {
    CrashSiteLetters(k);
    CrashSiteText(k, b);
    if k.CrashSite? {
      NoZSite(b);
    }
    hide Contains, Plain, Ext;
    NotInExtension(b, Ext(k), "testcase");
    NotInExtension(b, Ext(k), "hash");
    ContainsAt(b + ".", if k.CmprCrashSite? then EXT_LIST[2] else EXT_LIST[3], "");
  }

  lemma CrashSiteText(k: Kind, b: string)
    requires k.CrashSite? || k.CmprCrashSite?
    ensures b + "." + (if k.CmprCrashSite? then EXT_LIST[2] else EXT_LIST[3]) + "" == b + Ext(k)
    ensures Ext(k) == "." + if k.CmprCrashSite? then EXT_LIST[2] else EXT_LIST[3]
    ensures k.CrashSite? ==> Ext(k) == ".crash_site"
  {
    match k {
      case CrashSite => assert Ext(k) == "." + EXT_LIST[3];
      case CmprCrashSite => assert Ext(k) == "." + EXT_LIST[2];
    }
    hide Ext;
    DotText(b, if k.CmprCrashSite? then EXT_LIST[2] else EXT_LIST[3]);
  }

  lemma DotText(b: string, e: string)
    ensures b + "." + e + "" == b + ("." + e)
  {
  }

  lemma NoZSite(b: string)
    requires Plain(b)
    ensures !Contains(b + ".crash_site", "crash_site.tar.gz")
  {
    hide Contains;
    AbsentFrom(b, ".crash_site", "crash_site.tar.gz", 16);
  }

  lemma AbsentFrom(b: string, e: string, p: string, j: nat)
    requires Plain(b) && j < |p| && !NameChar(p[j]) && p[j] !in e
    ensures !Contains(b + e, p)
  {
    hide Contains;
    assert p[j] !in b + e;
    Absent(b + e, p, j);
  }

  lemma HashExtension(b: string)
    requires Plain(b)
    ensures GetExtension(b + ".hash") == ".hash"
  {
    assert 't' !in ".hash" && "testcase"[0] == 't' && !NameChar('t');
    hide Contains, Plain;
    AbsentFrom(b, ".hash", "testcase", 0);
    ContainsAt(b + ".", "hash", "");
    DotText(b, "hash");
    assert "." + "hash" == ".hash";
  }

  lemma ImageExtension(k: Kind, b: string)
    requires Plain(b) && (k.Image? || k.CmprImage?)
    ensures GetExtension(b + Ext(k)) == Ext(k)
  {
    ImageLetters(k);
    hide Contains, Plain, Ext;
    AbsentFrom(b, Ext(k), "testcase", 2);
    AbsentFrom(b, Ext(k), "hash", 0);
    AbsentFrom(b, Ext(k), "crash_site.tar.gz", 0);
    AbsentFrom(b, Ext(k), "crash_site", 0);
    if k.Image? {
      AbsentFrom(b, Ext(k), "pm_pool.tar.gz", 13);
    }
    ContainsAt(b + ".", if k.CmprImage? then EXT_LIST[4] else EXT_LIST[5], "");
    ImageText(k, b);
  }

  lemma ImageLetters(k: Kind)
    requires k.Image? || k.CmprImage?
    ensures 's' !in Ext(k) && 'h' !in Ext(k) && 'c' !in Ext(k) && (k.Image? ==> 'z' !in Ext(k))
    ensures "testcase"[2] == 's' && "hash"[0] == 'h' && "crash_site.tar.gz"[0] == 'c' && "crash_site"[0] == 'c'
    ensures "pm_pool.tar.gz"[13] == 'z' && !NameChar('s') && !NameChar('h') && !NameChar('c') && !NameChar('z')
  {
  }

  lemma ImageText(k: Kind, b: string)
    requires k.Image? || k.CmprImage?
    ensures b + "." + (if k.CmprImage? then EXT_LIST[4] else EXT_LIST[5]) + "" == b + Ext(k)
    ensures Ext(k) == "." + if k.CmprImage? then EXT_LIST[4] else EXT_LIST[5]
  {
    match k {
      case Image => assert Ext(k) == "." + EXT_LIST[5];
      case CmprImage => assert Ext(k) == "." + EXT_LIST[4];
    }
    hide Ext;
    DotText(b, if k.CmprImage? then EXT_LIST[4] else EXT_LIST[5]);
  }

  /** Every file of a testcase but the minimised one has its kind's extension, and the name in front of it. */
  lemma CleanFile(k: Kind, n: Name)
    requires WellFormed(n) && !k.Deleted? && !k.Clean? && !k.MinTestcase?
    ensures GetExtension(FileName(k, n)) == Ext(k)
    ensures StripExtension(FileName(k, n)) == Lead(k) + Print(n)
  {
    if k.Testcase? || k.ExecMap? || k.PmMap? {
      CleanFileName(k, n);
    } else {
      CleanOther(k, n);
    }
  }

  lemma CleanOther(k: Kind, n: Name)
    requires WellFormed(n) && (k.Image? || k.CmprImage? || k.CrashSite? || k.CmprCrashSite?)
    ensures GetExtension(FileName(k, n)) == Ext(k)
    ensures StripExtension(FileName(k, n)) == Lead(k) + Print(n)
  {
    hide GetExtension, Replace, Print, Plain;
    NameChars(n);
    var b := Print(n);
    assert "" + b == b && b + "" == b;
    assert Plain(b) by {
      PlainName(b);
    }
    if k.Image? || k.CmprImage? {
      ImageExtension(k, b);
    } else {
      CrashSiteExtension(k, b);
    }
    ReplaceLastExtension(b, Ext(k), "");
  }

  lemma PlainName(b: string)
    requires forall c :: c in b ==> NameChar(c)
    ensures Plain(b)
  {
  }

  lemma ParentPart(k: Kind, n: Name)
    requires WellFormed(n)
    ensures var clean := Lead(k) + Print(n);
            match n
            case Root(_) => Delims(clean, ID_DELIMS) == ""
            case Sub(p, _, _) =>
              Delims(clean, ID_DELIMS) != "" && BeforeLast(clean, ID_DELIMS) == Lead(k) + Print(p)
  {
    hide BeforeLast, Delims;
    NoDelimInLead(k);
    match n
    case Root(id) =>
      NoDelims(Lead(k) + ("id=" + id), ID_DELIMS);
    case Sub(p, d, id) =>
      assert Lead(k) + Print(n) == (Lead(k) + Print(p)) + [d.Char()] + ("id=" + id);
      BeforeLastAfter(Lead(k) + Print(p), d.Char(), "id=" + id, ID_DELIMS);
  }

  /**
   The parent of any file of a testcase but the minimised one is the same kind of file of its parent, and a
   root has none. The `.min` of a minimised testcase is taken for an id.
   */
  method ParentOfFile(k: Kind, n: Name) returns (result: string)
    requires WellFormed(n) && !k.Deleted? && !k.Clean?
    ensures result == if k.MinTestcase? then FileName(Testcase, n) else if n.Root? then "" else FileName(k, n.parent)
    ensures n.Sub? ==> (result == FileName(k, n.parent) <==> !k.MinTestcase?)
  {
    hide GetExtension, Replace, Print, BeforeLast, Delims;
    if n.Sub? && k.MinTestcase? && FileName(Testcase, n) == FileName(k, n.parent) {
      FileNameInjective(Testcase, n, k, n.parent);
    }
    if k.MinTestcase? {
      result := ParentOfMinTestcase(n);
    } else {
      CleanFile(k, n);
      ParentPart(k, n);
      result := GetTestcaseParent(FileName(k, n));
    }
  }

  /** The "parent" of a minimised testcase is the testcase it was made from. */
  method ParentOfMinTestcase(n: Name) returns (result: string)
    requires WellFormed(n)
    ensures result == FileName(Testcase, n)
  {
    hide GetExtension, Replace, Print, BeforeLast, Delims;
    NameChars(n);
    CleanName(Print(n) + ".min");
    assert Print(n) + ".min" + ".testcase" == FileName(MinTestcase, n) by {
      assert "" + Print(n) == Print(n) && ".min" + ".testcase" == ".min.testcase";
    }
    assert Print(n) + ".min" == Print(n) + ['.'] + "min";
    BeforeLastAfter(Print(n), '.', "min", ID_DELIMS);
    result := GetTestcaseParent(FileName(MinTestcase, n));
  }

  /** A hash file's parent is the hash file of the parent. */
  method ParentOfHash(n: Name) returns (result: string)
    requires WellFormed(n)
    ensures result == if n.Root? then "" else Print(n.parent) + ".hash"
  {
    hide GetExtension, Replace, Print, BeforeLast, Delims;
    NameChars(n);
    var b := Print(n);
    assert Plain(b) by {
      PlainName(b);
    }
    HashExtension(b);
    ReplaceLastExtension(b, ".hash", "");
    assert b + "" == b && Lead(Testcase) + b == b;
    ParentPart(Testcase, n);
    assert n.Sub? ==> Lead(Testcase) + Print(n.parent) == Print(n.parent);
    result := GetTestcaseParent(b + ".hash");
  }

  lemma NoDelimInLead(k: Kind)
    ensures forall x :: x in Lead(k) ==> x !in ID_DELIMS
  {
  }

  // ---------- ancestor_cnt, iter_cnt ----------

  /** None is the abort of `get_metadata_files`. */
  function AncestorCnt(s: string): Option<nat> {
    match GetMetadataFiles(s, false)
    case None => None
    case Some(files) => if Clean in files then Some(|Tokens(files[Clean], {','})| - 1) else None
  }

  function IterCnt(s: string): Option<nat> {
    match AncestorCnt(s)
    case None => None
    case Some(c) => Some(c + 1)
  }

  lemma {:induction false} DelimsAppend(s: string, t: string, delims: set<char>)
    ensures Delims(s + t, delims) == Delims(s, delims) + Delims(t, delims)
  {
    if t == "" {
      assert s + t == s;
    } else {
      var u := t[..|t| - 1];
      DelimsAppend(s, u, delims);
      assert (s + t)[..|s + t| - 1] == s + u;
    }
  }

  lemma {:induction false} CommasAreAncestors(n: Name)
    requires WellFormed(n)
    ensures |Delims(Print(n), {','})| == Ancestors(n)
  {
    match n
    case Root(id) => NoDelims("id=" + id, {','});
    case Sub(p, d, id) =>
      CommasAreAncestors(p);
      NoDelims("id=" + id, {','});
      assert Print(n) == Print(p) + ([d.Char()] + ("id=" + id));
      DelimsAppend(Print(p), [d.Char()] + ("id=" + id), {','});
      DelimsAppend([d.Char()], "id=" + id, {','});
      assert [d.Char()][..0] == "";
      assert Delims("", {','}) == "";
  }

  /** The generation of a testcase can be read off any of its eight files. */
  lemma GenerationOfFile(k: Kind, n: Name)
    requires WellFormed(n) && !k.Deleted? && !k.Clean?
    ensures AncestorCnt(FileName(k, n)) == Some(Ancestors(n))
    ensures IterCnt(FileName(k, n)) == Some(Ancestors(n) + 1)
  {
    hide GetMetadataFiles, Tokens, Delims, Print;
    MetadataIsFamily(k, n, false);
    assert Clean in ALL_KINDS && Family(n, false)[Clean] == FileName(Clean, n) == Print(n);
    CommasAreAncestors(n);
  }

  // ---------- Names of children ----------

  function UpTo(s: string, c: char): string {
    if s == "" || s[0] == c then "" else [s[0]] + UpTo(s[1..], c)
  }

  lemma {:induction false} UpToIs(s: string, c: char)
    ensures var t := UpTo(s, c); c !in t && t <= s && (|t| < |s| ==> s[|t|] == c)
  {
    if s != "" && s[0] != c {
      UpToIs(s[1..], c);
      assert UpTo(s, c)[1..] == UpTo(s[1..], c);
    }
  }

  lemma {:induction false} FromIs(s: string, c: char)
    ensures c in s ==> |UpTo(s, c)| < |s|
    ensures From(s, c) == if c in s then Some(s[|UpTo(s, c)| + 1..]) else None
  {
    if s != "" && s[0] != c {
      FromIs(s[1..], c);
      assert s == [s[0]] + s[1..];
    }
  }

  function From(s: string, c: char): Option<string> {
    if s == "" then None else if s[0] == c then Some(s[1..]) else From(s[1..], c)
  }

  /** `clean_tc_name`: the second `:` field of the first `,` field; None is the missing index. */
  function CleanTcName(queueName: string): Option<string> {
    match From(UpTo(queueName, ','), ':')
    case None => None
    case Some(rest) => Some("id=" + UpTo(rest, ':') + ".testcase")
  }

  lemma {:induction false} UpToWhole(t: string, c: char, rest: string)
    requires c !in t && (rest == "" || rest[0] == c)
    ensures UpTo(t + rest, c) == t
  {
    if t == "" {
      assert t + rest == rest;
    } else {
      assert (t + rest)[1..] == t[1..] + rest;
      UpToWhole(t[1..], c, rest);
    }
  }

  lemma CleanQueueName(id: string, rest: string)
    requires IsId(id) && (rest == "" || rest[0] == ',')
    ensures CleanTcName("id:" + id + rest) == Some("id=" + id + ".testcase")
  {
    assert ':' !in id && ',' !in id;
    var s := "id:" + id;
    UpToWhole(s, ',', rest);
    AfterColon(id);
    assert id + "" == id;
    UpToWhole(id, ':', "");
  }

  lemma AfterColon(id: string)
    ensures From("id:" + id, ':') == Some(id)
  {
    var s := "id:" + id;
    assert s[1..] == "d:" + id && s[1..][1..] == ":" + id && s[1..][1..][1..] == id;
    assert From(s[1..][1..], ':') == Some(id);
    assert From(s[1..], ':') == Some(id);
  }

  lemma ChildText(p: string, t: string, e: string)
    ensures p + "," + (t + e) == "" + (p + [','] + t) + e
  {
  }

  lemma IdText(p: string, id: string)
    ensures p + "id=" + id == p + ("id=" + id)
  {
  }

  /** The queue entry `id:<digits>,...` of an AFL run on `parent` is collected as the child `parent,id=<digits>`. */
  lemma ChildName(parent: Name, id: string, rest: string)
    requires WellFormed(parent) && IsId(id) && (rest == "" || rest[0] == ',')
    ensures var child := Sub(parent, Comma, id);
            && WellFormed(child)
            && CleanTcName("id:" + id + rest).Some?
            && Print(parent) + "," + CleanTcName("id:" + id + rest).value == FileName(Testcase, child)
            && Ancestors(child) == Ancestors(parent) + 1
  {
    CleanQueueName(id, rest);
    hide CleanTcName, IsId;
    IdText(Print(parent) + [','], id);
    ChildText(Print(parent), "id=" + id, ".testcase");
  }
}
