/**
 Testcase names: ids `id=<digits>` joined by `,` (a testcase generated from the one before) or
 `.` (a failure image of the one before), with their printer and scanner.
 Source: src/pmfuzz/handlers/name_handler.py.
 */
module Names {

  datatype Option<+T> = None | Some(value: T)

  datatype Delim = Dot | Comma {
    function Char(): char {
      if Dot? then '.' else ','
    }
  }

  /** A name is its parent's name plus one id. */
  datatype Name = Root(id: string) | Sub(parent: Name, delim: Delim, id: string)

  predicate IsDigit(c: char) {
    '0' <= c <= '9'
  }

  predicate IsId(id: string) {
    id != [] && forall i :: 0 <= i < |id| ==> IsDigit(id[i])
  }

  predicate WellFormed(n: Name) {
    match n
    case Root(id) => IsId(id)
    case Sub(p, _, id) => WellFormed(p) && IsId(id)
  }

  function Print(n: Name): string {
    match n
    case Root(id) => "id=" + id
    case Sub(p, d, id) => Print(p) + [d.Char()] + "id=" + id
  }

  /** Number of `,` in the name: how many testcases it descends from. */
  function Ancestors(n: Name): nat {
    match n
    case Root(_) => 0
    case Sub(p, d, _) => Ancestors(p) + (if d.Comma? then 1 else 0)
  }

  // ---------- The recogniser (id=\d+)([.,]id=\d+)*, one character at a time ----------

  /** What an id about to be read will be attached to. */
  /** Every comma of the printed name stands for one generation. */
  lemma {:induction false} AncestorsAreCommas(n: Name)
    requires WellFormed(n)
    ensures Ancestors(n) == multiset(Print(n))[',']
  {
    hide IsId;
    match n
    case Root(id) => NoComma(id);
    case Sub(p, d, id) =>
      AncestorsAreCommas(p);
      NoComma(id);
      OneMorePart(Print(p), d, "id=" + id);
      PartsOfPrint(Print(p), d, id);
  }

  lemma NoComma(id: string)
    requires IsId(id)
    ensures multiset("id=" + id)[','] == 0
  {
    var t := "id=" + id;
    forall i | 0 <= i < |t|
      ensures t[i] != ','
    {
      if i >= 3 {
        assert t[i] == id[i - 3];
      }
    }
    assert ',' !in t;
  }

  lemma PartsOfPrint(a: string, d: Delim, id: string)
    ensures a + [d.Char()] + "id=" + id == a + [d.Char()] + ("id=" + id)
  {
  }

  lemma OneMorePart(a: string, d: Delim, t: string)
    ensures multiset(a + [d.Char()] + t)[','] == multiset(a)[','] + (if d.Comma? then 1 else 0) + multiset(t)[',']
  {
    assert multiset(a + [d.Char()] + t) == multiset(a) + multiset{d.Char()} + multiset(t);
  }

  datatype Prefix = Start | After(name: Name, delim: Delim)

  /** `Await(p, j)` has read the first `j` characters of "id="; `InId` has read a whole name. */
  datatype Scanner = Fail | Await(prefix: Prefix, matched: nat) | InId(name: Name)

  function Attach(p: Prefix, id: string): Name {
    match p
    case Start => Root(id)
    case After(n, d) => Sub(n, d, id)
  }

  function Extend(n: Name, c: char): Name {
    match n
    case Root(id) => Root(id + [c])
    case Sub(p, d, id) => Sub(p, d, id + [c])
  }

  function ScanChar(s: Scanner, c: char): Scanner {
    match s
    case Fail => Fail
    case Await(p, j) =>
      if j < 3 then (if c == "id="[j] then Await(p, j + 1) else Fail)
      else if IsDigit(c) then InId(Attach(p, [c]))
      else Fail
    case InId(n) =>
      if IsDigit(c) then InId(Extend(n, c))
      else if c == '.' then Await(After(n, Dot), 0)
      else if c == ',' then Await(After(n, Comma), 0)
      else Fail
  }

  function Scan(s: string): Scanner {
    if s == [] then Await(Start, 0) else ScanChar(Scan(s[..|s| - 1]), s[|s| - 1])
  }

  predicate Accepts(s: string) {
    Scan(s).InId?
  }

  lemma ScanSnoc(s: string, c: char)
    ensures Scan(s + [c]) == ScanChar(Scan(s), c)
  {
    assert (s + [c])[..|s|] == s;
  }

  // ---------- Scanning and printing are inverse ----------

  function PrefixText(p: Prefix): string {
    match p
    case Start => ""
    case After(n, d) => Print(n) + [d.Char()]
  }

  /** The scanner holds exactly what it has read. */
  ghost predicate Holds(sc: Scanner, s: string) {
    match sc
    case Fail => true
    case Await(p, j) => j <= 3 && s == PrefixText(p) + "id="[..j] && (p.After? ==> WellFormed(p.name))
    case InId(n) => s == Print(n) && WellFormed(n)
  }

  lemma HoldsStep(sc: Scanner, s: string, c: char)
    requires Holds(sc, s)
    ensures Holds(ScanChar(sc, c), s + [c])
  {
    match sc
    case Fail =>
    case Await(p, j) =>
      if j < 3 {
        assert "id="[..j] + ["id="[j]] == "id="[..j + 1];
      } else {
        assert "id="[..3] == "id=";
      }
    case InId(n) =>
      if IsDigit(c) {
        match n
        case Root(id) => assert "id=" + (id + [c]) == "id=" + id + [c];
        case Sub(p, d, id) =>
      } else {
        assert "id="[..0] == "";
      }
  }

  lemma {:induction false} ScanHolds(s: string)
    ensures Holds(Scan(s), s)
  {
    if s == [] {
      assert "id="[..0] == "";
    } else {
      ScanHolds(s[..|s| - 1]);
      HoldsStep(Scan(s[..|s| - 1]), s[..|s| - 1], s[|s| - 1]);
      assert s == s[..|s| - 1] + [s[|s| - 1]];
    }
  }

  lemma {:induction false} ScanId(s: string, p: Prefix, id: string)
    requires Scan(s) == Await(p, 3) && IsId(id)
    ensures Scan(s + id) == InId(Attach(p, id))
  {
    var n := |id| - 1;
    assert s + id == (s + id[..n]) + [id[n]];
    ScanSnoc(s + id[..n], id[n]);
    if n == 0 {
      assert s + id[..n] == s && id == [id[n]];
    } else {
      ScanId(s, p, id[..n]);
      assert id[..n] + [id[n]] == id;
    }
  }

  lemma ScanIdTag(s: string, p: Prefix)
    requires Scan(s) == Await(p, 0)
    ensures Scan(s + "id=") == Await(p, 3)
  {
    hide Scan;
    ScanSnoc(s, 'i');
    ScanSnoc(s + "i", 'd');
    assert s + "i" + ['d'] == s + "id";
    ScanSnoc(s + "id", '=');
    assert s + "id" + ['='] == s + "id=";
  }

  lemma {:induction false} ScanPrint(n: Name)
    requires WellFormed(n)
    ensures Scan(Print(n)) == InId(n)
  {
    match n
    case Root(id) =>
      ScanIdTag("", Start);
      assert "" + "id=" == "id=";
      ScanId("id=", Start, id);
    case Sub(p, d, id) =>
      ScanPrint(p);
      ScanSnoc(Print(p), d.Char());
      ScanIdTag(Print(p) + [d.Char()], After(p, d));
      ScanId(Print(p) + [d.Char()] + "id=", After(p, d), id);
  }

  /** The scanner accepts exactly the printed names. */
  lemma AcceptsExactlyPrinted(s: string)
    ensures Accepts(s) <==> exists n :: WellFormed(n) && Print(n) == s
  {
    ScanHolds(s);
    if Accepts(s) {
      var n := Scan(s).name;
      assert WellFormed(n) && Print(n) == s;
    }
    forall n | WellFormed(n) && Print(n) == s
      ensures Accepts(s)
    {
      ScanPrint(n);
    }
  }

  lemma PrintInjective(a: Name, b: Name)
    requires WellFormed(a) && WellFormed(b) && Print(a) == Print(b)
    ensures a == b
  {
    ScanPrint(a);
    ScanPrint(b);
  }

  lemma {:induction false} FailStays(s: string, t: string)
    requires Scan(s) == Fail
    ensures Scan(s + t) == Fail
  {
    if t == [] {
      assert s + t == s;
    } else {
      FailStays(s, t[..|t| - 1]);
      assert s + t == (s + t[..|t| - 1]) + [t[|t| - 1]];
      ScanSnoc(s + t[..|t| - 1], t[|t| - 1]);
    }
  }

  /** A file extension ends the name before it: nothing that follows `.x` can be part of an id. */
  predicate IsExtension(e: string) {
    e == "" || (|e| >= 2 && e[0] == '.' && e[1] != 'i')
  }

  /** No name continues another name by `.` and a character that does not start an id. */
  lemma NoSuchName(a: Name, t: string)
    requires WellFormed(a)
    requires t != [] && t[0] == '.' && (|t| >= 2 ==> t[1] != 'i')
    ensures !Accepts(Print(a) + t)
  {
    ScanPrint(a);
    ScanSnoc(Print(a), '.');
    if |t| == 1 {
      assert t == ['.'];
    } else {
      ScanSnoc(Print(a) + ['.'], t[1]);
      FailStays(Print(a) + ['.'] + [t[1]], t[2..]);
      assert Print(a) + t == Print(a) + ['.'] + [t[1]] + t[2..];
    }
  }

  lemma SplitOverlap(x: string, e: string, y: string, f: string)
    requires x + e == y + f && |x| <= |y|
    ensures |y| - |x| <= |e| && y == x + e[..|y| - |x|]
  {
    var s := x + e;
    assert y == s[..|y|];
    assert s[..|y|] == x + e[..|y| - |x|];
  }

  lemma NotLonger(a: Name, e: string, b: Name, f: string)
    requires WellFormed(a) && WellFormed(b) && IsExtension(e)
    requires Print(a) + e == Print(b) + f
    ensures |Print(a)| >= |Print(b)|
  {
    if |Print(a)| < |Print(b)| {
      SplitOverlap(Print(a), e, Print(b), f);
      ScanPrint(b);
      NoSuchName(a, e[..|Print(b)| - |Print(a)|]);
    }
  }

  /** A printed name followed by an extension splits in one way only. */
  lemma SplitUnique(a: Name, e: string, b: Name, f: string)
    requires WellFormed(a) && WellFormed(b) && IsExtension(e) && IsExtension(f)
    requires Print(a) + e == Print(b) + f
    ensures a == b && e == f
  {
    NotLonger(a, e, b, f);
    NotLonger(b, f, a, e);
    var s := Print(a) + e;
    assert Print(a) == s[..|Print(a)|] == Print(b);
    assert e == s[|Print(a)|..] == f;
    PrintInjective(a, b);
  }
}
