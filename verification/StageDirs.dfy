/**
 Names of the directories of a stage's iteration, and reading them back.
 Source: src/pmfuzz/handlers/name_handler.py:45-81.
 */
module StageDirs {
  import opened Names
  import opened FileNames
  import opened Lineage

  // ---------- Decimal numbers ----------

  function Digit(n: nat): char
    requires n < 10
  {
    "0123456789"[n]
  }

  function Decimal(n: nat): string {
    if n < 10 then [Digit(n)] else Decimal(n / 10) + [Digit(n % 10)]
  }

  function DigitOf(c: char): nat
    requires IsDigit(c)
  {
    (c - '0') as nat
  }

  function Value(s: string): nat
    requires forall c :: c in s ==> IsDigit(c)
  {
    if s == "" then 0 else 10 * Value(s[..|s| - 1]) + DigitOf(s[|s| - 1])
  }

  /** `int` on unsigned digits; None is the ValueError. */
  function ParseInt(s: string): Option<nat> {
    if s != "" && forall c :: c in s ==> IsDigit(c) then Some(Value(s)) else None
  }

  lemma DigitIs(n: nat)
    requires n < 10
    ensures IsDigit(Digit(n)) && DigitOf(Digit(n)) == n
  {
  }

  lemma {:induction false} DecimalDigits(n: nat)
    ensures Decimal(n) != "" && forall c :: c in Decimal(n) ==> IsDigit(c)
  {
    hide Digit;
    DigitIs(n % 10);
    if n >= 10 {
      DecimalDigits(n / 10);
    }
  }

  /** Printing a number and reading it. */
  lemma {:induction false} ParseDecimal(n: nat)
    ensures ParseInt(Decimal(n)) == Some(n)
  {
    hide Digit, DigitOf, IsDigit;
    DecimalDigits(n);
    DigitIs(n % 10);
    if n >= 10 {
      ParseDecimal(n / 10);
      assert Decimal(n)[..|Decimal(n)| - 1] == Decimal(n / 10);
    } else {
      assert n % 10 == n && Decimal(n)[..0] == "" && Value("") == 0;
    }
  }

  /** Numbers are printed without leading zeros, each digit as itself. */
  lemma {:induction false} DecimalShape(n: nat)
    ensures var s := Decimal(n);
            && s[|s| - 1] == '0' + (n % 10) as char
            && (if n < 10 then |s| == 1 else s[..|s| - 1] == Decimal(n / 10) && s[0] != '0')
  {
    if n >= 10 {
      DecimalShape(n / 10);
      LastDigit(n % 10);
    } else {
      LastDigit(n);
    }
  }

  lemma LastDigit(n: nat)
    requires n < 10
    ensures Digit(n) == '0' + n as char && (n > 0 ==> Digit(n) != '0')
  {
  }

  // ---------- get_outdir_name, get_stage_inf ----------

  /** None is the abort on a stage or an iteration below 1. */
  function GetOutdirName(stage: int, iter: int): Option<string> {
    if stage < 1 || iter < 1 then None else Some(OutdirName(stage, iter))
  }

  function OutdirName(stage: nat, iter: nat): string {
    "stage=" + Decimal(stage) + ",iter=" + Decimal(iter)
  }

  /** The number after the token's first `=`; None is the missing index. */
  function Field(token: string): Option<nat> {
    var parts := Tokens(token, {'='});
    if |parts| < 2 then None else ParseInt(parts[1])
  }

  datatype Inf = Inf(stage: Option<nat>, iter: Option<nat>)

  function ReadToken(inf: Inf, token: string): Option<Inf> {
    if Contains(token, "stage") then
      if Field(token).None? then None else Some(inf.(stage := Field(token)))
    else if Contains(token, "iter") then
      if Field(token).None? then None else Some(inf.(iter := Field(token)))
    else None
  }

  function ReadTokens(tokens: seq<string>): Option<Inf> {
    if tokens == [] then Some(Inf(None, None))
    else
      match ReadTokens(tokens[..|tokens| - 1])
      case None => None
      case Some(inf) => ReadToken(inf, tokens[|tokens| - 1])
  }

  lemma {:induction false} ReadFails(tokens: seq<string>, i: nat)
    requires i <= |tokens| && ReadTokens(tokens[..i]) == None
    ensures ReadTokens(tokens) == None
    decreases |tokens|
  {
    if i < |tokens| {
      assert tokens[..|tokens| - 1][..i] == tokens[..i];
      ReadFails(tokens[..|tokens| - 1], i);
    } else {
      assert tokens[..i] == tokens;
    }
  }

  /** What a directory's name says; None is an abort or an exception. */
  function StageInf(dirname: string): Option<(nat, nat)> {
    if !Contains(dirname, "stage=") || !Contains(dirname, ",iter=") then None
    else
      match ReadTokens(Tokens(dirname, {','}))
      case None => None
      case Some(inf) =>
        if inf.stage.None? || inf.iter.None? then None else Some((inf.stage.value, inf.iter.value))
  }

  /** The token is read for the stage, or for the iteration. */
  predicate ReadFor(token: string, stage: bool) {
    if stage then Contains(token, "stage") else Contains(token, "iter") && !Contains(token, "stage")
  }

  ghost predicate IsLast(tokens: seq<string>, stage: bool, i: nat) {
    i < |tokens| && ReadFor(tokens[i], stage) && forall j :: i < j < |tokens| ==> !ReadFor(tokens[j], stage)
  }

  function Part(inf: Inf, stage: bool): Option<nat> {
    if stage then inf.stage else inf.iter
  }

  /** Reading fails exactly on a token that names neither, or holds no number. */
  lemma {:induction false} ReadTokensFails(tokens: seq<string>)
    ensures ReadTokens(tokens) == None <==>
            exists t :: t in tokens && Unreadable(t)
  {
    if tokens != [] {
      var n := |tokens| - 1;
      ReadTokensFails(tokens[..n]);
      assert tokens == tokens[..n] + [tokens[n]];
      if ReadTokens(tokens[..n]).Some? {
        UnreadableFails(ReadTokens(tokens[..n]).value, tokens[n]);
        hide ReadToken, Unreadable;
        assert tokens[n] in tokens;
      }
    }
  }

  predicate Unreadable(t: string) {
    Field(t) == None || (!Contains(t, "stage") && !Contains(t, "iter"))
  }

  lemma UnreadableFails(inf: Inf, t: string)
    ensures ReadToken(inf, t) == None <==> Unreadable(t)
  {
    hide Field, Contains;
  }

  /** Of several tokens for the stage, or for the iteration, the last counts. */
  lemma {:induction false} LastCounts(tokens: seq<string>, stage: bool, i: nat)
    requires ReadTokens(tokens).Some? && IsLast(tokens, stage, i)
    ensures Part(ReadTokens(tokens).value, stage) == Field(tokens[i]) && Field(tokens[i]).Some?
    decreases |tokens|
  {
    hide Field, Contains;
    var n := |tokens| - 1;
    if i < n {
      assert forall j :: 0 <= j < n ==> tokens[..n][j] == tokens[j];
      LastCounts(tokens[..n], stage, i);
    }
  }

  lemma {:induction false} NotRead(tokens: seq<string>, stage: bool)
    requires ReadTokens(tokens).Some? && forall t :: t in tokens ==> !ReadFor(t, stage)
    ensures Part(ReadTokens(tokens).value, stage) == None
  {
    hide Field, Contains;
    if tokens != [] {
      NotRead(tokens[..|tokens| - 1], stage);
      assert tokens[|tokens| - 1] in tokens;
    }
  }

  /** What any name gives: it must have a token for the stage and one for the iteration, and the last of each counts. */
  lemma StageInfOfAny(dirname: string, i: nat, j: nat)
    requires var ts := Tokens(dirname, {','}); IsLast(ts, true, i) && IsLast(ts, false, j)
    ensures var ts := Tokens(dirname, {','});
            StageInf(dirname) ==
            if Contains(dirname, "stage=") && Contains(dirname, ",iter=")
               && forall t :: t in ts ==> Field(t).Some? && (Contains(t, "stage") || Contains(t, "iter"))
            then Some((Field(ts[i]).value, Field(ts[j]).value)) else None
  {
    var ts := Tokens(dirname, {','});
    hide Contains, Tokens, Field, ReadTokens;
    assert ts[i] in ts && ts[j] in ts;
    ReadTokensFails(ts);
    if ReadTokens(ts).Some? {
      LastCounts(ts, true, i);
      LastCounts(ts, false, j);
    }
  }

  /** Without a token for one of them there is no result. */
  lemma NoStageInf(dirname: string, stage: bool)
    requires forall t :: t in Tokens(dirname, {','}) ==> !ReadFor(t, stage)
    ensures StageInf(dirname) == None
  {
    hide Contains, Tokens, Field, ReadTokens;
    var ts := Tokens(dirname, {','});
    if ReadTokens(ts).Some? {
      NotRead(ts, stage);
    }
  }

  method GetStageInf(dirname: string) returns (result: Option<(nat, nat)>)
    ensures result == StageInf(dirname)
  {
    if !Contains(dirname, "stage=") || !Contains(dirname, ",iter=") {
      return None;
    }
    var inf := Inf(None, None);
    var split := Tokens(dirname, {','});
    var i := 0;
    while i < |split|
      invariant 0 <= i <= |split|
      invariant ReadTokens(split[..i]) == Some(inf)
    {
      assert split[..i + 1][..i] == split[..i];
      var next := ReadToken(inf, split[i]);
      if next.None? {
        ReadFails(split, i + 1);
        return None;
      }
      inf := next.value;
      i := i + 1;
    }
    assert split[..i] == split;
    if inf.stage.None? || inf.iter.None? {
      return None;
    }
    return Some((inf.stage.value, inf.iter.value));
  }

  lemma {:induction false} OneToken(a: string, delims: set<char>)
    requires forall c :: c in a ==> c !in delims
    ensures Tokens(a, delims) == [a]
  {
    if a != "" {
      OneToken(a[..|a| - 1], delims);
      assert a[|a| - 1] in a;
      assert a[..|a| - 1] + [a[|a| - 1]] == a;
    }
  }

  lemma {:induction false} TwoTokens(a: string, c: char, b: string, delims: set<char>)
    requires c in delims && (forall x :: x in a ==> x !in delims) && (forall x :: x in b ==> x !in delims)
    ensures Tokens(a + [c] + b, delims) == [a, b]
  {
    var s := a + [c] + b;
    if b == "" {
      assert s[..|s| - 1] == a;
      OneToken(a, delims);
    } else {
      var t := b[..|b| - 1];
      assert s[..|s| - 1] == a + [c] + t;
      TwoTokens(a, c, t, delims);
      assert b[|b| - 1] in b;
      assert t + [b[|b| - 1]] == b;
    }
  }

  lemma StageToken(n: nat)
    ensures Contains("stage=" + Decimal(n), "stage") && Field("stage=" + Decimal(n)) == Some(n)
  {
    hide Contains, Tokens, Decimal;
    DecimalDigits(n);
    ParseDecimal(n);
    assert "stage=" + Decimal(n) == "" + "stage" + ("=" + Decimal(n));
    ContainsAt("", "stage", "=" + Decimal(n));
    assert "stage=" + Decimal(n) == "stage" + ['='] + Decimal(n);
    TwoTokens("stage", '=', Decimal(n), {'='});
  }

  lemma IterToken(n: nat)
    ensures var t := "iter=" + Decimal(n);
            !Contains(t, "stage") && Contains(t, "iter") && Field(t) == Some(n)
  {
    hide Contains, Tokens, Decimal;
    DecimalDigits(n);
    ParseDecimal(n);
    Absent("iter=" + Decimal(n), "stage", 0);
    assert "iter=" + Decimal(n) == "" + "iter" + ("=" + Decimal(n));
    ContainsAt("", "iter", "=" + Decimal(n));
    assert "iter=" + Decimal(n) == "iter" + ['='] + Decimal(n);
    TwoTokens("iter", '=', Decimal(n), {'='});
  }

  lemma ReadTwo(a: string, b: string)
    ensures ReadTokens([a, b]) == match ReadToken(Inf(None, None), a)
                                  case None => None
                                  case Some(inf) => ReadToken(inf, b)
  {
    hide ReadToken;
    assert [a, b][..1] == [a] && [a][..0] == [];
    assert ReadTokens([a]) == ReadToken(Inf(None, None), a);
  }

  /** The name of a directory gives its stage and iteration back. */
  lemma StageInfOfName(stage: nat, iter: nat)
    ensures StageInf(OutdirName(stage, iter)) == Some((stage, iter))
  {
    hide Contains, Tokens, Decimal, Field;
    var s, a, b := OutdirName(stage, iter), "stage=" + Decimal(stage), "iter=" + Decimal(iter);
    DecimalDigits(stage);
    DecimalDigits(iter);
    assert s == "" + "stage=" + (Decimal(stage) + ",iter=" + Decimal(iter));
    ContainsAt("", "stage=", Decimal(stage) + ",iter=" + Decimal(iter));
    ContainsAt(a, ",iter=", Decimal(iter));
    assert s == a + [','] + b;
    TwoTokens(a, ',', b, {','});
    StageToken(stage);
    IterToken(iter);
    ReadTwo(a, b);
  }

  /** `get_outdir_name` refuses numbers below 1, and the names it gives are read back. */
  lemma ReadBack(stage: int, iter: int)
    ensures GetOutdirName(stage, iter) == None <==> stage < 1 || iter < 1
    ensures var name := GetOutdirName(stage, iter); name.Some? ==> StageInf(name.value) == Some((stage, iter))
  {
    hide StageInf, OutdirName;
    if stage >= 1 && iter >= 1 {
      StageInfOfName(stage, iter);
    }
  }

  lemma OutdirNameInjective(stage: nat, iter: nat, stage': nat, iter': nat)
    requires OutdirName(stage, iter) == OutdirName(stage', iter')
    ensures stage == stage' && iter == iter'
  {
    StageInfOfName(stage, iter);
    StageInfOfName(stage', iter');
  }
}
