/**
 The ids of a testcase's generations, and the selection of testcases by their ids.
 Source: src/pmfuzz/handlers/name_handler.py:83-115, src/pmfuzz/stages/dedup.py:150-170.
 */
module SelectIds {
  import opened Names
  import opened FileNames
  import opened Lineage
  import opened StageDirs

  /** The id of each generation, as text: what follows a dot belongs to the same generation. */
  function Heads(n: Name): seq<string> {
    match n
    case Root(id) => [id]
    case Sub(p, Comma, id) => Heads(p) + [id]
    case Sub(p, Dot, _) => Heads(p)
  }

  /** The number after a token's `=`, once what follows its first dot is cut off. */
  function IdOf(token: string): Option<nat> {
    Field(UpTo(token, '.'))
  }

  function ReadIds(tokens: seq<string>): Option<seq<nat>> {
    if tokens == [] then Some([])
    else
      match (ReadIds(tokens[..|tokens| - 1]), IdOf(tokens[|tokens| - 1]))
      case (Some(ids), Some(id)) => Some(ids + [id])
      case _ => None
  }

  lemma {:induction false} ReadIdsFails(tokens: seq<string>, i: nat)
    requires i <= |tokens| && ReadIds(tokens[..i]) == None
    ensures ReadIds(tokens) == None
    decreases |tokens|
  {
    if i < |tokens| {
      assert tokens[..|tokens| - 1][..i] == tokens[..i];
      ReadIdsFails(tokens[..|tokens| - 1], i);
    } else {
      assert tokens[..i] == tokens;
    }
  }

  method ReadAll(tokens: seq<string>) returns (lineage: Option<seq<nat>>)
    ensures lineage == ReadIds(tokens)
  {
    hide IdOf;
    var ids: seq<nat> := [];
    var i := 0;
    while i < |tokens|
      invariant 0 <= i <= |tokens|
      invariant ReadIds(tokens[..i]) == Some(ids)
    {
      assert tokens[..i + 1][..i] == tokens[..i];
      var id := IdOf(tokens[i]);
      if id.None? {
        ReadIdsFails(tokens, i + 1);
        return None;
      }
      ids := ids + [id.value];
      i := i + 1;
    }
    assert tokens[..i] == tokens;
    return Some(ids);
  }

  /** `get_lineage`; None is an abort or an exception. */
  method GetLineage(tcName: string) returns (lineage: Option<seq<nat>>)
    ensures lineage == match GetMetadataFiles(tcName, false)
                       case None => None
                       case Some(files) =>
                         if Clean in files then ReadIds(Tokens(files[Clean], {','})) else None
  {
    hide GetMetadataFiles, Tokens, ReadIds;
    var files := GetMetadataFiles(tcName, false);
    if files.None? || Clean !in files.value {
      return None;
    }
    lineage := ReadAll(Tokens(files.value[Clean], {','}));
  }

  lemma TokensOneMore(s: string, c: char, delims: set<char>)
    requires c !in delims
    ensures var ts := Tokens(s, delims); Tokens(s + [c], delims) == ts[..|ts| - 1] + [ts[|ts| - 1] + [c]]
  {
    assert (s + [c])[..|s|] == s;
  }

  lemma {:induction false} TokensExtend(a: string, b: string, delims: set<char>)
    requires forall x :: x in b ==> x !in delims
    ensures var ts := Tokens(a, delims); Tokens(a + b, delims) == ts[..|ts| - 1] + [ts[|ts| - 1] + b]
  {
    hide Tokens;
    var ts := Tokens(a, delims);
    if b == "" {
      assert a + b == a && ts[|ts| - 1] + b == ts[|ts| - 1];
    } else {
      var t, c := b[..|b| - 1], b[|b| - 1];
      assert c in b;
      TokensExtend(a, t, delims);
      TokensOneMore(a + t, c, delims);
      assert a + b == a + t + [c];
      assert (ts[|ts| - 1] + t) + [c] == ts[|ts| - 1] + b;
    }
  }

  lemma TokensAppend(a: string, c: char, b: string, delims: set<char>)
    requires c in delims && forall x :: x in b ==> x !in delims
    ensures Tokens(a + [c] + b, delims) == Tokens(a, delims) + [b]
  {
    assert (a + [c])[..|a|] == a;
    TokensExtend(a + [c], b, delims);
    assert "" + b == b;
  }

  // ---------- Names by their parts ----------

  /** What stands between two delimiters of a name. */
  predicate IsPart(t: string) {
    |t| > 3 && t[..3] == "id=" && forall i :: 3 <= i < |t| ==> '0' <= t[i] <= '9'
  }

  lemma IdIsPart(id: string)
    requires IsId(id)
    ensures IsPart("id=" + id) && forall c :: c in "id=" + id ==> c !in {',', '.'}
  {
  }

  lemma {:induction false} PartsOfName(n: Name)
    requires WellFormed(n)
    ensures forall t :: t in Tokens(Print(n), {',', '.'}) ==> IsPart(t)
  {
    hide Tokens, IsPart, IsId;
    match n
    case Root(id) =>
      IdIsPart(id);
      OneToken("id=" + id, {',', '.'});
    case Sub(p, d, id) =>
      PartsOfName(p);
      IdIsPart(id);
      assert Print(n) == Print(p) + [d.Char()] + ("id=" + id);
      TokensAppend(Print(p), d.Char(), "id=" + id, {',', '.'});
  }

  lemma {:induction false} LastDelim(s: string, delims: set<char>) returns (i: nat)
    requires Delims(s, delims) != ""
    ensures i < |s| && s[i] in delims && forall j :: i < j < |s| ==> s[j] !in delims
  {
    i := |s| - 1;
    if s[i] !in delims {
      i := LastDelim(s[..i], delims);
      assert forall j :: i < j < |s| - 1 ==> s[..|s| - 1][j] == s[j];
    }
  }

  lemma PartId(t: string)
    requires IsPart(t)
    ensures |t| > 3 && IsId(t[3..]) && t == "id=" + t[3..]
  {
    assert t == t[..3] + t[3..];
  }

  lemma {:induction false} NameOfParts(s: string) returns (n: Name)
    requires forall t :: t in Tokens(s, {',', '.'}) ==> IsPart(t)
    ensures WellFormed(n) && Print(n) == s
    decreases |s|
  {
    hide Tokens, Delims, IsPart, IsId;
    var ts := Tokens(s, {',', '.'});
    if Delims(s, {',', '.'}) == "" {
      WeaveTokens(s, {',', '.'});
      assert ts == [s] && s in ts;
      PartId(s);
      n := Root(s[3..]);
    } else {
      var i := LastDelim(s, {',', '.'});
      var before, last := s[..i], s[i + 1..];
      assert s == before + [s[i]] + last;
      forall c | c in last
        ensures c !in {',', '.'}
      {
        var j :| 0 <= j < |last| && last[j] == c;
        assert s[i + 1 + j] == c;
      }
      TokensAppend(before, s[i], last, {',', '.'});
      assert ts == Tokens(before, {',', '.'}) + [last] && last in ts;
      assert IsPart(last);
      PartId(last);
      var p := NameOfParts(before);
      n := Sub(p, if s[i] == ',' then Comma else Dot, last[3..]);
      assert Print(n) == before + [s[i]] + "id=" + last[3..];
      assert before + [s[i]] + "id=" + last[3..] == before + [s[i]] + ("id=" + last[3..]);
    }
  }

  /** The grammar accepts exactly what splits, at commas and dots, into parts `id=<digits>`. */
  lemma AcceptsParts(s: string)
    ensures Accepts(s) <==> forall t :: t in Tokens(s, {',', '.'}) ==>
              |t| > 3 && t[..3] == "id=" && forall i :: 3 <= i < |t| ==> '0' <= t[i] <= '9'
  {
    AcceptsExactlyPrinted(s);
    hide Tokens, Accepts;
    if Accepts(s) {
      var n :| WellFormed(n) && Print(n) == s;
      PartsOfName(n);
      assert forall t :: t in Tokens(s, {',', '.'}) ==> IsPart(t);
    } else if forall t :: t in Tokens(s, {',', '.'}) ==> IsPart(t) {
      var n := NameOfParts(s);
    }
  }

  // ---------- Ids ----------

  lemma {:induction false} UpToExtend(s: string, c: char, t: string)
    requires t != "" && t[0] == c
    ensures UpTo(s + t, c) == UpTo(s, c)
  {
    if s == "" {
      assert s + t == t;
    } else {
      assert (s + t)[1..] == s[1..] + t;
      UpToExtend(s[1..], c, t);
    }
  }

  /** Up to its first dot, each comma-separated part is the id of one generation. */
  ghost predicate Heading(ts: seq<string>, ids: seq<string>) {
    |ts| == |ids| && forall i :: 0 <= i < |ts| ==> IsId(ids[i]) && UpTo(ts[i], '.') == "id=" + ids[i]
  }

  lemma {:induction false} TokensOfName(n: Name)
    requires WellFormed(n)
    ensures Heading(Tokens(Print(n), {','}), Heads(n))
  {
    hide Tokens, UpTo, IsId;
    match n
    case Root(id) =>
      IdToken(id);
      OneToken("id=" + id, {','});
    case Sub(p, Comma, id) =>
      TokensOfName(p);
      IdToken(id);
      assert Print(n) == Print(p) + [','] + ("id=" + id);
      TokensAppend(Print(p), ',', "id=" + id, {','});
    case Sub(p, Dot, id) =>
      TokensOfName(p);
      IdToken(id);
      var tail := "." + ("id=" + id);
      assert Print(n) == Print(p) + tail;
      TokensExtend(Print(p), tail, {','});
      var ts := Tokens(Print(p), {','});
      UpToExtend(ts[|ts| - 1], '.', tail);
  }

  lemma IdToken(id: string)
    requires IsId(id)
    ensures UpTo("id=" + id, '.') == "id=" + id && Field("id=" + id) == Some(Value(id))
    ensures forall c :: c in "id=" + id ==> c != ','
  {
    assert ("id=" + id) + "" == "id=" + id;
    UpToWhole("id=" + id, '.', "");
    assert "id=" + id == "id" + ['='] + id;
    TwoTokens("id", '=', id, {'='});
  }

  function IdValue(id: string): nat
    requires IsId(id)
  {
    Value(id)
  }

  function Values(ids: seq<string>): seq<nat>
    requires forall i :: 0 <= i < |ids| ==> IsId(ids[i])
  {
    seq(|ids|, i requires 0 <= i < |ids| => IdValue(ids[i]))
  }

  lemma {:induction false} ReadTokensOfIds(ts: seq<string>, ids: seq<string>)
    requires Heading(ts, ids)
    ensures ReadIds(ts) == Some(Values(ids))
  {
    if ts != [] {
      var n := |ts| - 1;
      ReadTokensOfIds(ts[..n], ids[..n]);
      IdToken(ids[n]);
      assert Values(ids) == Values(ids[..n]) + [IdValue(ids[n])];
    }
  }

  lemma {:induction false} OneIdPerGeneration(n: Name)
    requires WellFormed(n)
    ensures |Heads(n)| == Ancestors(n) + 1 && forall i :: 0 <= i < |Heads(n)| ==> IsId(Heads(n)[i])
  {
    if n.Sub? {
      OneIdPerGeneration(n.parent);
    }
  }

  /** The lineage read off any of a testcase's eight files: one number for each generation. */
  method LineageOfFile(k: Kind, n: Name) returns (lineage: Option<seq<nat>>)
    requires WellFormed(n) && !k.Deleted? && !k.Clean?
    ensures (forall i :: 0 <= i < |Heads(n)| ==> IsId(Heads(n)[i])) && lineage == Some(Values(Heads(n)))
    ensures |lineage.value| == Ancestors(n) + 1
  {
    hide GetMetadataFiles, Tokens, UpTo, Heads, IsId, ReadIds;
    MetadataIsFamily(k, n, false);
    assert Clean in ALL_KINDS && Family(n, false)[Clean] == FileName(Clean, n) == Print(n);
    TokensOfName(n);
    ReadTokensOfIds(Tokens(Print(n), {','}), Heads(n));
    OneIdPerGeneration(n);
    lineage := GetLineage(FileName(k, n));
  }

  /** `should_use_tc`: every id of the lineage is selected, or no selection is configured. */
  predicate ShouldUse(n: Name, ids: set<nat>)
    requires WellFormed(n)
  {
    OneIdPerGeneration(n);
    ids == {} || forall i :: 0 <= i < |Heads(n)| ==> IdValue(Heads(n)[i]) in ids
  }

  /** Generation by generation: every id but those after a dot must be selected. */
  lemma SelectedByGeneration(n: Name, ids: set<nat>)
    requires WellFormed(n) && ids != {}
    ensures match n
            case Root(id) => ShouldUse(n, ids) <==> Value(id) in ids
            case Sub(p, Comma, id) => ShouldUse(n, ids) <==> ShouldUse(p, ids) && Value(id) in ids
            case Sub(p, Dot, _) => ShouldUse(n, ids) <==> ShouldUse(p, ids)
  {
    if n.Sub? && n.delim.Comma? {
      var hs := Heads(n.parent);
      assert Heads(n) == hs + [n.id] && Heads(n)[|hs|] == n.id;
      assert forall i :: 0 <= i < |hs| ==> Heads(n)[i] == hs[i];
    } else if n.Root? {
      assert Heads(n) == [n.id] && Heads(n)[0] == n.id;
    } else {
      assert Heads(n) == Heads(n.parent);
    }
  }

  lemma UseLineage(n: Name, ids: set<nat>, lineage: seq<nat>)
    requires WellFormed(n) && ids != {} && (forall i :: 0 <= i < |Heads(n)| ==> IsId(Heads(n)[i]))
    requires lineage == Values(Heads(n))
    ensures ShouldUse(n, ids) <==> forall v :: v in lineage ==> v in ids
  {
    hide Heads, IsId, IdValue;
    forall i | 0 <= i < |Heads(n)|
      ensures lineage[i] == IdValue(Heads(n)[i]) && lineage[i] in lineage
    {
    }
  }

  /** `should_use_tc`: on any file of a testcase it says whether its generations' ids are all selected. */
  method ShouldUseTc(k: Kind, n: Name, ids: set<nat>) returns (result: bool)
    requires WellFormed(n) && !k.Deleted? && !k.Clean?
    ensures result <==> ShouldUse(n, ids)
  {
    if ids == {} {
      return true;
    }
    var read := LineageOfFile(k, n);
    var lineage := read.value;
    var i := 0;
    while i < |lineage| && lineage[i] in ids
      invariant 0 <= i <= |lineage| && forall j :: 0 <= j < i ==> lineage[j] in ids
    {
      i := i + 1;
    }
    result := i == |lineage|;
    UseLineage(n, ids, lineage);
  }

  /** Selection keeps whole families: the parent of a selected testcase is selected. */
  lemma ParentSelected(n: Name, ids: set<nat>)
    requires WellFormed(n) && n.Sub? && ShouldUse(n, ids)
    ensures ShouldUse(n.parent, ids)
  {
    forall i | 0 <= i < |Heads(n.parent)|
      ensures Heads(n)[i] == Heads(n.parent)[i]
    {
    }
  }
}
