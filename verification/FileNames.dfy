/**
 The files kept beside a testcase, and how `get_metadata_files` finds them all from any one of them.
 Source: src/pmfuzz/handlers/name_handler.py. Names are base names; a directory in front is carried along unchanged.
 */
module FileNames {
  import opened Names

  datatype Kind =
    | Testcase | MinTestcase | ExecMap | PmMap
    | CrashSite | CmprCrashSite | Image | CmprImage
    | Deleted | Clean

  function Lead(k: Kind): string {
    match k
    case ExecMap => "map_"
    case PmMap => "pm_map_"
    case _ => ""
  }

  function Ext(k: Kind): string {
    match k
    case Testcase => ".testcase"
    case MinTestcase => ".min.testcase"
    case ExecMap => ".testcase"
    case PmMap => ".testcase"
    case CrashSite => ".crash_site"
    case CmprCrashSite => ".crash_site.tar.gz"
    case Image => ".pm_pool"
    case CmprImage => ".pm_pool.tar.gz"
    case Deleted => ".deleted"
    case Clean => ""
  }

  function FileName(k: Kind, n: Name): string {
    Lead(k) + Print(n) + Ext(k)
  }

  lemma {:induction false} PrintStartsWithId(n: Name)
    ensures |Print(n)| >= 3 && Print(n)[0] == 'i'
  {
    if n.Sub? {
      PrintStartsWithId(n.parent);
    }
  }

  lemma FileNameStart(k: Kind, n: Name)
    ensures FileName(k, n) == Lead(k) + (Print(n) + Ext(k))
    ensures FileName(k, n) != "" && FileName(k, n)[0] == if k.ExecMap? then 'm' else if k.PmMap? then 'p' else 'i'
  {
    PrintStartsWithId(n);
  }

  lemma KindFromParts(k: Kind, l: Kind)
    requires Lead(k) == Lead(l) && Ext(k) == Ext(l)
    ensures k == l
  {
    assert |Lead(k)| == |Lead(l)| && |Ext(k)| == |Ext(l)|;
    if |Ext(k)| == 9 && |Lead(k)| == 0 {
      var e := Ext(k);
      assert e[1] == Ext(l)[1];
    }
  }

  lemma IsExtensionExt(k: Kind)
    ensures IsExtension(Ext(k))
  {
  }

  /** A file belongs to one testcase and has one kind: families of distinct testcases share no file. */
  lemma FileNameInjective(k: Kind, a: Name, l: Kind, b: Name)
    requires WellFormed(a) && WellFormed(b) && FileName(k, a) == FileName(l, b)
    ensures k == l && a == b
  {
    FileNameStart(k, a);
    FileNameStart(l, b);
    assert Lead(k) == Lead(l);
    var x, y := Print(a) + Ext(k), Print(b) + Ext(l);
    assert (Lead(k) + x)[|Lead(k)|..] == x && (Lead(l) + y)[|Lead(l)|..] == y;
    IsExtensionExt(k);
    IsExtensionExt(l);
    SplitUnique(a, Ext(k), b, Ext(l));
    KindFromParts(k, l);
  }

  // ---------- The regular expressions ----------

  /** In the archives' patterns the dots of `.tar.gz` are unescaped and match any character but a newline. */
  predicate ExtMatches(k: Kind, t: string) {
    && |t| == |Ext(k)|
    && forall i :: 0 <= i < |t| ==>
         t[i] == Ext(k)[i] || ((k.CmprCrashSite? || k.CmprImage?) && i > 0 && Ext(k)[i] == '.' && t[i] != '\n')
  }

  predicate MatchesWhole(k: Kind, s: string) {
    && |Lead(k)| + |Ext(k)| <= |s|
    && Lead(k) == s[..|Lead(k)|]
    && ExtMatches(k, s[|s| - |Ext(k)|..])
    && Accepts(s[|Lead(k)|..|s| - |Ext(k)|])
  }

  /** `is_tc`, `is_map`, ...: the final `$` also matches before a newline that ends the name. */
  predicate IsRegex(k: Kind, s: string) {
    MatchesWhole(k, s) || (s != "" && s[|s| - 1] == '\n' && MatchesWhole(k, s[..|s| - 1]))
  }

  predicate EndsWith(s: string, e: string) {
    |e| <= |s| && s[|s| - |e|..] == e
  }

  lemma ExtMatchesItself(k: Kind)
    ensures ExtMatches(k, Ext(k))
  {
  }

  lemma PrintedMatches(k: Kind, n: Name)
    requires WellFormed(n)
    ensures MatchesWhole(k, FileName(k, n)) && EndsWith(FileName(k, n), Ext(k))
  {
    hide Scan, Print, WellFormed;
    var s := FileName(k, n);
    ExtMatchesItself(k);
    assert s[..|Lead(k)|] == Lead(k);
    assert s[|s| - |Ext(k)|..] == Ext(k);
    assert s[|Lead(k)|..|s| - |Ext(k)|] == Print(n);
    ScanPrint(n);
  }

  lemma ExtHasNoNewline(k: Kind, s: string)
    requires !k.Clean? && EndsWith(s, Ext(k))
    ensures s != "" && s[|s| - 1] != '\n'
  {
    var e := Ext(k);
    assert e[|e| - 1] != '\n';
    hide Ext;
    assert s[|s| - |e|..][|e| - 1] == s[|s| - 1];
  }

  lemma SplitThree(s: string, a: string, c: string)
    requires |a| + |c| <= |s| && a == s[..|a|] && EndsWith(s, c)
    ensures s == a + s[|a|..|s| - |c|] + c
  {
  }

  lemma RecognisedIsPrinted(k: Kind, s: string) returns (n: Name)
    requires !k.Clean? && IsRegex(k, s) && EndsWith(s, Ext(k))
    ensures WellFormed(n) && FileName(k, n) == s
  {
    hide Accepts, Print, WellFormed, Lead, Ext, ExtMatches;
    ExtHasNoNewline(k, s);
    n := PrintedName(s[|Lead(k)|..|s| - |Ext(k)|]);
    SplitThree(s, Lead(k), Ext(k));
  }

  lemma PrintedName(body: string) returns (n: Name)
    requires Accepts(body)
    ensures WellFormed(n) && Print(n) == body
  {
    AcceptsExactlyPrinted(body);
    n :| WellFormed(n) && Print(n) == body;
  }

  /** The printed file names are exactly the recognised ones that end in the literal extension. */
  lemma RecognisedIff(k: Kind, s: string)
    requires !k.Clean? && !k.Deleted?
    ensures (exists n :: WellFormed(n) && FileName(k, n) == s) <==> IsRegex(k, s) && EndsWith(s, Ext(k))
  {
    hide MatchesWhole, Print, EndsWith;
    if IsRegex(k, s) && EndsWith(s, Ext(k)) {
      var n := RecognisedIsPrinted(k, s);
    }
    forall n | WellFormed(n) && FileName(k, n) == s
      ensures IsRegex(k, s) && EndsWith(s, Ext(k))
    {
      PrintedMatches(k, n);
    }
  }

  /** Every printed name is accepted with a newline appended, too. */
  lemma NewlineAccepted(k: Kind, n: Name)
    requires WellFormed(n) && !k.Clean? && !k.Deleted?
    ensures var s := FileName(k, n) + "\n"; IsRegex(k, s) && !EndsWith(s, Ext(k))
  {
    PrintedMatches(k, n);
    var s := FileName(k, n) + "\n";
    assert s[..|s| - 1] == FileName(k, n);
    if EndsWith(s, Ext(k)) {
      ExtHasNoNewline(k, s);
    }
  }

  /** The string is a name with an extension its pattern takes, and perhaps a newline. */
  predicate Spells(k: Kind, n: Name, e: string, s: string) {
    && WellFormed(n) && ExtMatches(k, e)
    && (s == Lead(k) + Print(n) + e || s == Lead(k) + Print(n) + e + "\n")
  }

  lemma WholeIffSpelled(k: Kind, s: string)
    ensures MatchesWhole(k, s) <==> exists n, e :: WellFormed(n) && ExtMatches(k, e) && s == Lead(k) + Print(n) + e
  {
    hide Accepts, Print, WellFormed, Lead, Ext;
    if MatchesWhole(k, s) {
      var e := s[|s| - |Ext(k)|..];
      var n := PrintedName(s[|Lead(k)|..|s| - |Ext(k)|]);
      assert s == Lead(k) + Print(n) + e;
    }
    forall n, e | WellFormed(n) && ExtMatches(k, e) && s == Lead(k) + Print(n) + e
      ensures MatchesWhole(k, s)
    {
      SpelledMatches(k, n, e);
    }
  }

  lemma SpelledMatches(k: Kind, n: Name, e: string)
    requires WellFormed(n) && |e| == |Ext(k)|
    ensures MatchesWhole(k, Lead(k) + Print(n) + e) <==> ExtMatches(k, e)
  {
    hide Scan, Print, WellFormed, Lead, Ext, ExtMatches;
    var s := Lead(k) + Print(n) + e;
    assert s[..|Lead(k)|] == Lead(k);
    assert s[|s| - |Ext(k)|..] == e;
    assert s[|Lead(k)|..|s| - |Ext(k)|] == Print(n);
    ScanPrint(n);
  }

  /** Exactly what the pattern of a kind accepts. */
  lemma RecognisedExactly(k: Kind, s: string)
    requires !k.Clean? && !k.Deleted?
    ensures IsRegex(k, s) <==> exists n, e :: Spells(k, n, e, s)
  {
    hide MatchesWhole, Print, WellFormed, Lead, ExtMatches;
    WholeIffSpelled(k, s);
    if MatchesWhole(k, s) {
      var n, e :| WellFormed(n) && ExtMatches(k, e) && s == Lead(k) + Print(n) + e;
      assert Spells(k, n, e, s);
    } else if s != "" && s[|s| - 1] == '\n' {
      var t := s[..|s| - 1];
      WholeIffSpelled(k, t);
      assert s == t + "\n";
      if MatchesWhole(k, t) {
        var n, e :| WellFormed(n) && ExtMatches(k, e) && t == Lead(k) + Print(n) + e;
        assert Spells(k, n, e, s);
      }
    }
    forall n, e | Spells(k, n, e, s)
      ensures IsRegex(k, s)
    {
      SpelledIsRegex(k, n, e, s);
    }
  }

  lemma SpelledIsRegex(k: Kind, n: Name, e: string, s: string)
    requires Spells(k, n, e, s)
    ensures IsRegex(k, s)
  {
    SpelledMatches(k, n, e);
    hide MatchesWhole, ExtMatches, WellFormed, Lead, Ext, Print;
    MaybeNewline(k, Lead(k) + Print(n) + e, s);
  }

  lemma MaybeNewline(k: Kind, t: string, s: string)
    requires MatchesWhole(k, t) && (s == t || s == t + "\n")
    ensures IsRegex(k, s)
  {
    hide MatchesWhole;
    if s != t {
      assert s[..|s| - 1] == t && s[|s| - 1] == '\n';
    }
  }

  /** An extension that differs from an archive's in its last two dots only. */
  function ArchiveExt(k: Kind, a: char, b: char): string
    requires k.CmprImage? || k.CmprCrashSite?
  {
    (if k.CmprImage? then ".pm_pool" else ".crash_site") + [a] + "tar" + [b] + "gz"
  }

  /** Where the first of the last two dots is. */
  function DotAt(k: Kind): nat {
    if k.CmprImage? then 8 else 11
  }

  lemma ArchiveShape(k: Kind, a: char, b: char)
    requires k.CmprImage? || k.CmprCrashSite?
    ensures var e, f, i := ArchiveExt(k, a, b), Ext(k), DotAt(k);
            && |e| == |f| == i + 7 && e[i] == a && e[i + 4] == b && f[i] == '.' && f[i + 4] == '.'
            && forall j :: 0 <= j < |f| && j != i && j != i + 4 ==> e[j] == f[j]
  {
    var stem := if k.CmprImage? then ".pm_pool" else ".crash_site";
    assert Ext(k) == stem + ['.'] + "tar" + ['.'] + "gz";
  }

  lemma ArchiveExtMatches(k: Kind, a: char, b: char)
    requires k.CmprImage? || k.CmprCrashSite?
    ensures |ArchiveExt(k, a, b)| == |Ext(k)|
    ensures ExtMatches(k, ArchiveExt(k, a, b)) <==> a != '\n' && b != '\n'
    ensures ArchiveExt(k, a, b) == Ext(k) <==> a == '.' && b == '.'
  {
    ArchiveShape(k, a, b);
    hide ArchiveExt, Ext;
    var e, f, i := ArchiveExt(k, a, b), Ext(k), DotAt(k);
    if a != '\n' && b != '\n' {
      assert ExtMatches(k, e);
    }
  }

  /** The archives' recognisers take any characters but newlines for the last two dots. */
  lemma DotAccepted(k: Kind, n: Name, a: char, b: char)
    requires WellFormed(n) && (k.CmprImage? || k.CmprCrashSite?)
    ensures IsRegex(k, Print(n) + ArchiveExt(k, a, b)) <==> a != '\n' && b != '\n'
    ensures Print(n) + ArchiveExt(k, a, b) == FileName(k, n) <==> a == '.' && b == '.'
  {
    var e := ArchiveExt(k, a, b);
    ArchiveExtMatches(k, a, b);
    ArchiveEnd(k, a, b);
    SpelledMatches(k, n, e);
    hide MatchesWhole, ExtMatches, WellFormed, Ext, ArchiveExt;
    NoLead(Print(n), e);
    NoLead(Print(n), Ext(k));
    LastOf(Print(n), e);
    SameTail(Print(n), e, Ext(k));
  }

  lemma ArchiveEnd(k: Kind, a: char, b: char)
    requires k.CmprImage? || k.CmprCrashSite?
    ensures var e := ArchiveExt(k, a, b); e != "" && e[|e| - 1] == 'z' && Lead(k) == ""
  {
  }

  lemma NoLead(p: string, e: string)
    ensures "" + p + e == p + e
  {
  }

  lemma LastOf(p: string, e: string)
    requires e != ""
    ensures (p + e)[|p + e| - 1] == e[|e| - 1]
  {
  }

  lemma SameTail(p: string, a: string, b: string)
    ensures p + a == p + b <==> a == b
  {
    assert (p + a)[|p|..] == a && (p + b)[|p|..] == b;
  }

  // ---------- Substrings ----------

  predicate OccursAt(s: string, p: string, i: nat) {
    i + |p| <= |s| && s[i..i + |p|] == p
  }

  predicate Contains(s: string, p: string)
    decreases |s|
  {
    OccursAt(s, p, 0) || (s != "" && Contains(s[1..], p))
  }

  /** `str.replace`: every occurrence, from left to right, without overlap. */
  function Replace(s: string, p: string, r: string): string
    requires p != ""
    decreases |s|
  {
    if s == "" then ""
    else if OccursAt(s, p, 0) then r + Replace(s[|p|..], p, r)
    else [s[0]] + Replace(s[1..], p, r)
  }

  lemma OccursChar(s: string, p: string, i: nat, j: nat)
    requires j < |p|
    ensures OccursAt(s, p, i) ==> i + j < |s| && s[i + j] == p[j]
  {
    if OccursAt(s, p, i) {
      assert s[i + j] == s[i..i + |p|][j];
    }
  }

  lemma OccursShift(s: string, p: string, i: nat)
    requires s != ""
    ensures OccursAt(s[1..], p, i) <==> OccursAt(s, p, i + 1)
  {
    if i + 1 + |p| <= |s| {
      assert s[i + 1..i + 1 + |p|] == s[1..][i..i + |p|];
    }
  }

  lemma {:induction false} ContainsIff(s: string, p: string)
    ensures Contains(s, p) <==> exists i: nat :: i <= |s| && OccursAt(s, p, i)
    decreases |s|
  {
    if s != "" {
      ContainsIff(s[1..], p);
      forall i: nat | i <= |s[1..]|
        ensures OccursAt(s[1..], p, i) <==> OccursAt(s, p, i + 1)
      {
        OccursShift(s, p, i);
      }
      forall i: nat | i <= |s| && OccursAt(s, p, i)
        ensures Contains(s, p)
      {
        if i > 0 {
          assert OccursAt(s[1..], p, i - 1);
        }
      }
      if Contains(s[1..], p) {
        var i: nat :| i <= |s[1..]| && OccursAt(s[1..], p, i);
        assert OccursAt(s, p, i + 1);
      }
    }
  }

  /** A pattern with a character that `s` lacks does not occur. */
  lemma {:induction false} Absent(s: string, p: string, j: nat)
    requires j < |p| && p[j] !in s
    ensures !Contains(s, p)
    decreases |s|
  {
    OccursChar(s, p, 0, j);
    if s != "" {
      Absent(s[1..], p, j);
    }
  }

  lemma {:induction false} ReplaceAbsent(s: string, p: string, r: string)
    requires p != "" && !Contains(s, p)
    ensures Replace(s, p, r) == s
    decreases |s|
  {
    if s != "" {
      ReplaceAbsent(s[1..], p, r);
    }
  }

  /** Replacing a pattern that starts where `b` ends and cannot start inside `b`. */
  lemma {:induction false} ReplaceFirst(b: string, p: string, tail: string, r: string)
    requires p != "" && forall i: nat :: i < |b| ==> !OccursAt(b + p + tail, p, i)
    ensures Replace(b + p + tail, p, r) == b + r + Replace(tail, p, r)
    decreases |b|
  {
    var s := b + p + tail;
    if b == "" {
      assert s == p + tail && s[|p|..] == tail;
      assert s[0..0 + |p|] == p;
    } else {
      var u := b[1..] + p + tail;
      assert s[1..] == u;
      forall i: nat | i < |b[1..]|
        ensures !OccursAt(u, p, i)
      {
        OccursShift(s, p, i);
        assert !OccursAt(s, p, i + 1);
      }
      assert !OccursAt(s, p, 0);
      ReplaceFirst(b[1..], p, tail, r);
      assert Replace(s, p, r) == [b[0]] + (b[1..] + r + Replace(tail, p, r));
    }
  }

  lemma ReplaceAfter(b: string, p: string, tail: string, r: string)
    requires p != "" && !Contains(tail, p)
    requires forall i: nat :: i < |b| ==> !OccursAt(b + p + tail, p, i)
    ensures Replace(b + p + tail, p, r) == b + r + tail
  {
    hide Contains;
    ReplaceFirst(b, p, tail, r);
    ReplaceAbsent(tail, p, r);
  }

  // ---------- get_metadata_files ----------

  /** What is replaced by what to get from a file's name to its testcase's name. */
  datatype Rule = Rule(pattern: string, replacement: string)

  const PM_MAP_RULE := Rule("pm_map_", "")
  const MAP_RULE := Rule("map_", "")
  const CMPR_IMAGE_RULE := Rule(".pm_pool.tar.gz", ".testcase")
  const IMAGE_RULE := Rule(".pm_pool", ".testcase")
  const CMPR_CRASH_SITE_RULE := Rule(".crash_site.tar.gz", ".testcase")
  const CRASH_SITE_RULE := Rule(".crash_site", ".testcase")
  const MIN_RULE := Rule(".min", "")

  function RuleFor(s: string): (r: Option<Rule>)
    ensures r.Some? ==> r.value.pattern != ""
  {
    if Contains(s, "pm_map") then Some(PM_MAP_RULE)
    else if Contains(s, "map") then Some(MAP_RULE)
    else if Contains(s, ".pm_pool.tar.gz") then Some(CMPR_IMAGE_RULE)
    else if Contains(s, ".pm_pool") then Some(IMAGE_RULE)
    else if Contains(s, ".crash_site.tar.gz") then Some(CMPR_CRASH_SITE_RULE)
    else if Contains(s, ".crash_site") then Some(CRASH_SITE_RULE)
    else if Contains(s, ".min") then Some(MIN_RULE)
    else None
  }

  /** The testcase name behind any of its files' names. */
  function Canonical(s: string): string {
    match RuleFor(s)
    case Some(r) => Replace(s, r.pattern, r.replacement)
    case None => s
  }

  /** One entry of the result; testcase and maps are built from the testcase name, the rest from the bare one. */
  function Entry(k: Kind, basename: string, bare: string): string {
    match k
    case Testcase => basename
    case ExecMap => "map_" + basename
    case PmMap => "pm_map_" + basename
    case _ => bare + Ext(k)
  }

  const ALL_KINDS: set<Kind> := {
    Testcase, MinTestcase, ExecMap, PmMap, CrashSite, CmprCrashSite, Image, CmprImage, Deleted, Clean
  }

  /** None is the abort on a name that does not belong to any testcase. */
  function GetMetadataFiles(s: string, deleted: bool): Option<map<Kind, string>> {
    var basename := Canonical(s);
    if !IsRegex(Testcase, basename) then None
    else
      var bare := Replace(basename, ".testcase", "");
      Some(map k | k in ALL_KINDS && (deleted || !k.Deleted?) :: Entry(k, basename, bare))
  }

  function Family(n: Name, deleted: bool): map<Kind, string> {
    map k | k in ALL_KINDS && (deleted || !k.Deleted?) :: FileName(k, n)
  }

  /** Characters of a printed name. */
  predicate NameChar(c: char) {
    IsDigit(c) || c == 'i' || c == 'd' || c == '=' || c == '.' || c == ','
  }

  lemma {:induction false} NameChars(n: Name)
    requires WellFormed(n)
    ensures forall c :: c in Print(n) ==> NameChar(c)
  {
    if n.Sub? {
      NameChars(n.parent);
    }
  }

  lemma ContainsAt(b: string, p: string, tail: string)
    ensures Contains(b + p + tail, p)
  {
    var s := b + p + tail;
    assert s[|b|..|b| + |p|] == p;
    assert OccursAt(s, p, |b|);
    ContainsIff(s, p);
  }

  ghost predicate Plain(b: string) {
    forall c :: c in b ==> NameChar(c)
  }

  /** An extension `.x` with `x` outside names cannot start inside the name. */
  lemma NotInsideName(b: string, p: string, tail: string)
    requires Plain(b) && |p| >= 2 && p[0] == '.' && !NameChar(p[1])
    ensures forall i: nat :: i < |b| ==> !OccursAt(b + p + tail, p, i)
  {
    var s := b + p + tail;
    forall i: nat | i < |b|
      ensures !OccursAt(s, p, i)
    {
      OccursChar(s, p, i, 1);
      if i + 1 < |b| {
        assert s[i + 1] == b[i + 1] && b[i + 1] in b;
      } else {
        assert s[i + 1] == p[0];
      }
    }
  }

  lemma ReplaceExtension(b: string, p: string, tail: string, r: string)
    requires Plain(b) && |p| >= 2 && p[0] == '.' && !NameChar(p[1]) && !Contains(tail, p)
    ensures Replace(b + p + tail, p, r) == b + r + tail
  {
    hide Contains, Replace, OccursAt;
    NotInsideName(b, p, tail);
    ReplaceAfter(b, p, tail, r);
  }

  lemma ReplaceLead(p: string, s: string, j: nat)
    requires j < |p| && p[j] !in s
    ensures Replace(p + s, p, "") == s
  {
    hide Contains, Replace, OccursAt;
    Absent(s, p, j);
    assert "" + p + s == p + s && "" + "" + s == s;
    ReplaceAfter("", p, s, "");
  }

  /** "map" cannot straddle a part without `a` that does not end in `m` and a part without `m`. */
  lemma NoMap(x: string, y: string)
    requires 'a' !in x && 'm' !in y && (x == "" || x[|x| - 1] != 'm')
    ensures !Contains(x + y, "map") && !Contains(x + y, "pm_map")
  {
    var s := x + y;
    forall i: nat | i <= |s|
      ensures !OccursAt(s, "map", i)
    {
      OccursChar(s, "map", i, 0);
      OccursChar(s, "map", i, 1);
      if i + 1 < |x| {
        assert s[i + 1] == x[i + 1];
      } else if i < |x| {
        assert s[i] == x[i];
      } else if i < |s| {
        assert s[i] == y[i - |x|];
      }
    }
    ContainsIff(s, "map");
    forall i: nat | i <= |s|
      ensures !OccursAt(s, "pm_map", i)
    {
      PmMapHasMap(s, i);
      if i + 3 <= |s| {
        assert !OccursAt(s, "map", i + 3);
      }
    }
    ContainsIff(s, "pm_map");
  }

  lemma PmMapHasMap(s: string, i: nat)
    ensures OccursAt(s, "pm_map", i) ==> OccursAt(s, "map", i + 3)
  {
    assert "pm_map"[3..6] == "map";
    if i + 6 <= |s| {
      assert s[i + 3..i + 6] == s[i..i + 6][3..6];
    }
  }

  /** A name without `m` mentions neither a map, nor a pool, nor a minimised testcase. */
  lemma NoM(s: string)
    requires 'm' !in s
    ensures !Contains(s, "pm_map") && !Contains(s, "map") && !Contains(s, ".min")
    ensures !Contains(s, ".pm_pool.tar.gz") && !Contains(s, ".pm_pool")
  {
    hide Contains;
    Absent(s, "pm_map", 1);
    Absent(s, "map", 0);
    Absent(s, ".pm_pool.tar.gz", 2);
    Absent(s, ".pm_pool", 2);
    Absent(s, ".min", 1);
  }

  lemma NoUnderscore(s: string)
    requires '_' !in s
    ensures !Contains(s, ".pm_pool.tar.gz") && !Contains(s, ".pm_pool")
    ensures !Contains(s, ".crash_site.tar.gz") && !Contains(s, ".crash_site")
  {
    hide Contains;
    Absent(s, ".pm_pool.tar.gz", 3);
    Absent(s, ".pm_pool", 3);
    Absent(s, ".crash_site.tar.gz", 6);
    Absent(s, ".crash_site", 6);
  }

  lemma NoZ(s: string)
    requires 'z' !in s
    ensures !Contains(s, ".pm_pool.tar.gz") && !Contains(s, ".crash_site.tar.gz")
  {
    hide Contains;
    Absent(s, ".pm_pool.tar.gz", 14);
    Absent(s, ".crash_site.tar.gz", 17);
  }

  /** What each kind of file name, after its name part `b`, makes `get_metadata_files` do. */
  lemma RuleForTestcase(b: string)
    requires Plain(b)
    ensures RuleFor(b + ".testcase") == None
  {
    hide Contains;
    NoM(b + ".testcase");
    NoUnderscore(b + ".testcase");
  }

  lemma NoPmInMap(t: string)
    requires 'm' !in t
    ensures !Contains("map" + t, "pm_map")
  {
    var s := "map" + t;
    forall i: nat | i <= |s|
      ensures !OccursAt(s, "pm_map", i)
    {
      OccursChar(s, "pm_map", i, 1);
      if 3 <= i + 1 < |s| {
        assert s[i + 1] == t[i + 1 - 3];
      }
    }
    ContainsIff(s, "pm_map");
  }

  lemma RuleForExecMap(b: string)
    requires Plain(b)
    ensures RuleFor("map_" + b + ".testcase") == Some(MAP_RULE)
  {
    hide Contains;
    var t := "_" + b + ".testcase";
    assert "map_" + b + ".testcase" == "map" + t;
    NoPmInMap(t);
    assert "" + "map" + t == "map" + t;
    ContainsAt("", "map", t);
  }

  lemma RuleForPmMap(b: string)
    ensures RuleFor("pm_map_" + b + ".testcase") == Some(PM_MAP_RULE)
  {
    hide Contains;
    var t := "_" + b + ".testcase";
    assert "pm_map_" + b + ".testcase" == "" + "pm_map" + t;
    ContainsAt("", "pm_map", t);
  }

  lemma RuleForCmprImage(b: string)
    requires Plain(b)
    ensures RuleFor(b + ".pm_pool.tar.gz") == Some(CMPR_IMAGE_RULE)
  {
    hide Contains;
    var s, x := b + ".pm_pool.tar.gz", b + ".pm_pool";
    assert s == x + ".tar.gz" && s == b + ".pm_pool.tar.gz" + "";
    assert x[|x| - 1] == ".pm_pool"[7];
    NoMap(x, ".tar.gz");
    ContainsAt(b, ".pm_pool.tar.gz", "");
  }

  lemma RuleForImage(b: string)
    requires Plain(b)
    ensures RuleFor(b + ".pm_pool") == Some(IMAGE_RULE)
  {
    hide Contains;
    var s := b + ".pm_pool";
    assert s == s + "" && s == b + ".pm_pool" + "";
    assert s[|s| - 1] == ".pm_pool"[7];
    NoMap(s, "");
    NoZ(s);
    ContainsAt(b, ".pm_pool", "");
  }

  lemma RuleForCmprCrashSite(b: string)
    requires Plain(b)
    ensures RuleFor(b + ".crash_site.tar.gz") == Some(CMPR_CRASH_SITE_RULE)
  {
    hide Contains;
    NoM(b + ".crash_site.tar.gz");
    assert b + ".crash_site.tar.gz" == b + ".crash_site.tar.gz" + "";
    ContainsAt(b, ".crash_site.tar.gz", "");
  }

  lemma RuleForCrashSite(b: string)
    requires Plain(b)
    ensures RuleFor(b + ".crash_site") == Some(CRASH_SITE_RULE)
  {
    hide Contains;
    NoM(b + ".crash_site");
    NoZ(b + ".crash_site");
    assert b + ".crash_site" == b + ".crash_site" + "";
    ContainsAt(b, ".crash_site", "");
  }

  lemma RuleForMinTestcase(b: string)
    requires Plain(b)
    ensures RuleFor(b + ".min.testcase") == Some(MIN_RULE)
  {
    hide Contains;
    var s, x := b + ".min.testcase", b + ".min";
    assert s == x + ".testcase" && s == b + ".min" + ".testcase";
    assert x[|x| - 1] == ".min"[3];
    NoMap(x, ".testcase");
    NoUnderscore(s);
    ContainsAt(b, ".min", ".testcase");
  }

  lemma ReplaceMapLead(b: string)
    requires Plain(b)
    ensures Replace("map_" + b + ".testcase", "map_", "") == b + ".testcase"
    ensures Replace("pm_map_" + b + ".testcase", "pm_map_", "") == b + ".testcase"
  {
    hide Contains, Replace, OccursAt;
    var t := b + ".testcase";
    assert "map_" + b + ".testcase" == "map_" + t && "pm_map_" + b + ".testcase" == "pm_map_" + t;
    ReplaceLead("map_", t, 0);
    ReplaceLead("pm_map_", t, 1);
  }

  lemma ReplaceLastExtension(b: string, p: string, r: string)
    requires Plain(b) && |p| >= 2 && p[0] == '.' && !NameChar(p[1])
    ensures Replace(b + p, p, r) == b + r
  {
    hide Contains, Replace, OccursAt;
    Absent("", p, 0);
    ReplaceExtension(b, p, "", r);
    assert b + p + "" == b + p;
    assert b + r + "" == b + r;
  }

  lemma ReplaceMin(b: string)
    requires Plain(b)
    ensures Replace(b + ".min.testcase", ".min", "") == b + ".testcase"
  {
    hide Contains, Replace, OccursAt;
    Absent(".testcase", ".min", 1);
    ReplaceExtension(b, ".min", ".testcase", "");
    assert ".min" + ".testcase" == ".min.testcase";
    assert b + ".min" + ".testcase" == b + (".min" + ".testcase");
    assert b + "" + ".testcase" == b + ".testcase";
  }

  lemma CanonicalOfParts(k: Kind, b: string)
    requires Plain(b) && !k.Deleted? && !k.Clean?
    ensures Canonical(Lead(k) + b + Ext(k)) == b + ".testcase"
  {
    hide Contains, RuleFor, Plain;
    assert "" + b == b;
    match k
    case Testcase => RuleForTestcase(b);
    case MinTestcase => RuleForMinTestcase(b); ReplaceMin(b);
    case ExecMap => RuleForExecMap(b); ReplaceMapLead(b);
    case PmMap => RuleForPmMap(b); ReplaceMapLead(b);
    case CrashSite => RuleForCrashSite(b); ReplaceLastExtension(b, ".crash_site", ".testcase");
    case CmprCrashSite => RuleForCmprCrashSite(b); ReplaceLastExtension(b, ".crash_site.tar.gz", ".testcase");
    case Image => RuleForImage(b); ReplaceLastExtension(b, ".pm_pool", ".testcase");
    case CmprImage => RuleForCmprImage(b); ReplaceLastExtension(b, ".pm_pool.tar.gz", ".testcase");
  }

  /** Each of the eight files of a testcase leads back to its testcase. */
  lemma CanonicalOf(k: Kind, n: Name)
    requires WellFormed(n) && !k.Deleted? && !k.Clean?
    ensures Canonical(FileName(k, n)) == FileName(Testcase, n)
  {
    hide Canonical, Print;
    NameChars(n);
    CanonicalOfParts(k, Print(n));
    assert "" + Print(n) == Print(n);
  }

  /** From any file of a testcase, `get_metadata_files` lists the whole family of that testcase. */
  lemma MetadataIsFamily(k: Kind, n: Name, deleted: bool)
    requires WellFormed(n) && !k.Deleted? && !k.Clean?
    ensures GetMetadataFiles(FileName(k, n), deleted) == Some(Family(n, deleted))
  {
    hide Canonical, FileName;
    CanonicalOf(k, n);
    PrintedMatches(Testcase, n);
    BareName(n);
    EntriesAreFamily(n, deleted);
  }

  lemma BareName(n: Name)
    requires WellFormed(n)
    ensures Replace(FileName(Testcase, n), ".testcase", "") == Print(n)
  {
    hide Replace, WellFormed, Print;
    NameChars(n);
    ReplaceLastExtension(Print(n), ".testcase", "");
    assert "" + Print(n) + ".testcase" == Print(n) + ".testcase";
    assert Print(n) + "" == Print(n);
  }

  lemma ConcatLaws(a: string, b: string, c: string)
    ensures a + (b + c) == a + b + c
    ensures "" + b == b
  {
  }

  lemma EntryIsFile(k: Kind, n: Name)
    ensures Entry(k, FileName(Testcase, n), Print(n)) == FileName(k, n)
  {
    hide Print;
    ConcatLaws(Lead(k), Print(n), Ext(k));
    match k
    case Testcase =>
    case ExecMap =>
    case PmMap =>
    case _ =>
  }

  lemma EntriesAreFamily(n: Name, deleted: bool)
    ensures (map k | k in ALL_KINDS && (deleted || !k.Deleted?) :: Entry(k, FileName(Testcase, n), Print(n)))
            == Family(n, deleted)
  {
    forall k | k in ALL_KINDS
      ensures Entry(k, FileName(Testcase, n), Print(n)) == FileName(k, n)
    {
      EntryIsFile(k, n);
    }
  }

  /** A tombstone or a bare name belongs to no testcase: `get_metadata_files` aborts on it. */
  lemma NoFamilyWithoutExtension(k: Kind, n: Name, deleted: bool)
    requires WellFormed(n) && (k.Deleted? || k.Clean?)
    ensures GetMetadataFiles(FileName(k, n), deleted) == None
  {
    hide Contains, Replace, IsRegex;
    PlainFile(k, n);
    NoM(FileName(k, n));
    NoUnderscore(FileName(k, n));
    NotATestcase(k, n);
  }

  lemma PlainFile(k: Kind, n: Name)
    requires WellFormed(n) && (k.Deleted? || k.Clean?)
    ensures 'm' !in FileName(k, n) && '_' !in FileName(k, n)
  {
    NameChars(n);
  }

  lemma LastChar(k: Kind, n: Name)
    requires WellFormed(n) && (k.Deleted? || k.Clean?)
    ensures var s := FileName(k, n); s != "" && s[|s| - 1] != 'e' && s[|s| - 1] != '\n'
  {
    NameChars(n);
    PrintStartsWithId(n);
    if k.Clean? {
      assert FileName(k, n)[|FileName(k, n)| - 1] in Print(n);
    }
  }

  lemma NotATestcase(k: Kind, n: Name)
    requires WellFormed(n) && (k.Deleted? || k.Clean?)
    ensures !IsRegex(Testcase, FileName(k, n))
  {
    hide Accepts, FileName;
    LastChar(k, n);
  }
}
