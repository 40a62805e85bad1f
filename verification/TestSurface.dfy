/** Counting test functions in a source file by the attribute lines above each `fn`. */
module TestSurface {
  import opened Ascii
  import opened Utf8

  // ----- splitting a file into lines ---------------------------------------------------------

  function Chomp(line: string): string {
    if line != "" && line[|line| - 1] == '\r' then line[..|line| - 1] else line
  }

  /** The lines from byte `i` on, the current one having begun at `start`. */
  function LinesFrom(s: string, start: nat, i: nat): seq<string>
    requires start <= i <= |s|
    decreases |s| - i
  {
    if i == |s| then (if start == i then [] else [s[start..i]])
    else if s[i] == '\n' then [Chomp(s[start..i])] + LinesFrom(s, i + 1, i + 1)
    else LinesFrom(s, start, i + 1)
  }

  /** `str::lines`: ended by a newline, or by a carriage return and a newline; the last one may be unended. */
  function Lines(s: string): seq<string> { LinesFrom(s, 0, 0) }

  method SplitLines(source: string) returns (lines: seq<string>)
    ensures lines == Lines(source)
  {
    lines := [];
    var start := 0;
    for i := 0 to |source|
      invariant start <= i && lines + LinesFrom(source, start, i) == Lines(source)
    {
      if source[i] == '\n' {
        lines := lines + [Chomp(source[start..i])];
        start := i + 1;
      }
    }
    if start < |source| { lines := lines + [source[start..|source|]]; }
  }

  lemma {:induction false} PlainScan(s: string, start: nat, i: nat, n: nat)
    requires start <= i <= n <= |s| && forall k :: i <= k < n ==> s[k] != '\n'
    ensures LinesFrom(s, start, i) == LinesFrom(s, start, n)
    decreases n - i
  {
    if i < n { PlainScan(s, start, i + 1, n); }
  }

  /** A text without newlines is one line, ended or not. */
  lemma OneLine(line: string)
    requires '\n' !in line
    ensures Lines(line + "\r\n") == [line]
    ensures (line == "" || line[|line| - 1] != '\r') ==> Lines(line + "\n") == [line]
    ensures line != "" ==> Lines(line) == [line]
  {
    Ended(line);
    Ended(line + "\r");
    assert line + "\r\n" == (line + "\r") + "\n" && Chomp(line + "\r") == line;
    PlainScan(line, 0, 0, |line|);
    assert line[0..|line|] == line;
  }

  lemma Ended(line: string)
    requires '\n' !in line
    ensures Lines(line + "\n") == [Chomp(line)]
  {
    var s := line + "\n";
    PlainScan(s, 0, 0, |line|);
    assert s[0..|line|] == line && s[|line|] == '\n';
    assert LinesFrom(s, |s|, |s|) == [];
  }

  lemma {:induction false} LinesShift(a: string, b: string, start: nat, i: nat)
    requires start <= i <= |b|
    ensures LinesFrom(a + b, |a| + start, |a| + i) == LinesFrom(b, start, i)
    decreases |b| - i
  {
    var s := a + b;
    assert s[|a| + start..|a| + i] == b[start..i];
    if i < |b| {
      assert s[|a| + i] == b[i];
      LinesShift(a, b, start, i + 1);
      if b[i] == '\n' { LinesShift(a, b, i + 1, i + 1); }
    }
  }

  lemma {:induction false} LinesJoinFrom(a: string, b: string, start: nat, i: nat)
    requires start <= i <= |a| && (a != "" ==> a[|a| - 1] == '\n') && (i == |a| ==> start == i)
    ensures LinesFrom(a + b, start, i) == LinesFrom(a, start, i) + Lines(b)
    decreases |a| - i
  {
    var s := a + b;
    if i == |a| {
      LinesShift(a, b, 0, 0);
    } else {
      assert s[i] == a[i] && s[start..i] == a[start..i];
      if a[i] == '\n' { LinesJoinFrom(a, b, i + 1, i + 1); } else { LinesJoinFrom(a, b, start, i + 1); }
    }
  }

  /** Lines may be split at any newline. */
  lemma LinesJoin(a: string, b: string)
    requires a != "" ==> a[|a| - 1] == '\n'
    ensures Lines(a + b) == Lines(a) + Lines(b)
  {
    LinesJoinFrom(a, b, 0, 0);
  }

  // ----- reading a line ---------------------------------------------------------------------------

  datatype Line = TestAttribute | IgnoreAttribute | OtherAttribute | Function | Filler | Other

  function TrimStart(s: string): string {
    if s == "" || SpaceLen(s, 0) == 0 then s else TrimStart(s[SpaceLen(s, 0)..])
  }

  predicate StartsWith(s: string, prefix: string) { |prefix| <= |s| && s[..|prefix|] == prefix }

  /** The leading letters, digits, colons and underscores. */
  function AttributeName(s: string): string {
    if s != "" && NameByte(s[0]) then [s[0]] + AttributeName(s[1..]) else ""
  }

  predicate NameByte(c: char) { IsAlphanumeric(c) || c == ':' || c == '_' }

  /** `s` begins with `name`, and no longer name does. */
  predicate Named(s: string, name: string) {
    && StartsWith(s, name) && (forall j :: 0 <= j < |name| ==> NameByte(name[j]))
    && (|name| == |s| || !NameByte(s[|name|]))
  }

  lemma {:induction false} NameIsLongest(s: string, name: string)
    ensures AttributeName(s) == name <==> Named(s, name)
  {
    if s != "" && NameByte(s[0]) && name != "" {
      NameIsLongest(s[1..], name[1..]);
      assert name == [name[0]] + name[1..];
      assert StartsWith(s, name) <==> s[0] == name[0] && StartsWith(s[1..], name[1..]) by { SplitPrefix(s, name); }
      assert forall j :: 0 <= j < |name| ==> name[j] == if j == 0 then name[0] else name[1..][j - 1];
    }
  }

  lemma SplitPrefix(s: string, name: string)
    requires s != "" && name != ""
    ensures StartsWith(s, name) <==> s[0] == name[0] && StartsWith(s[1..], name[1..])
  {
    if |name| <= |s| {
      assert s[..|name|] == [s[0]] + s[1..][..|name| - 1];
      assert name == [name[0]] + name[1..];
    }
  }

  function Read(raw: string): Line {
    var line := TrimStart(raw);
    if StartsWith(line, "#[") then
      var name := AttributeName(line[2..]);
      if name == "test" || name == "tokio::test" then TestAttribute
      else if name == "ignore" then IgnoreAttribute
      else OtherAttribute
    else if StartsWith(line, "fn ") || StartsWith(line, "async fn ") || StartsWith(line, "pub fn ") || StartsWith(line, "pub async fn ") then Function
    else if line == "" || StartsWith(line, "//") then Filler
    else Other
  }

  /** The attribute of the line, after any indentation, is exactly `name`. */
  predicate HasAttribute(raw: string, name: string) {
    StartsWith(TrimStart(raw), "#[") && Named(TrimStart(raw)[2..], name)
  }

  /** Which lines are marks. */
  lemma MarksExact(raw: string)
    ensures Read(raw) == TestAttribute <==> HasAttribute(raw, "test") || HasAttribute(raw, "tokio::test")
    ensures Read(raw) == IgnoreAttribute <==> HasAttribute(raw, "ignore")
  {
    var line := TrimStart(raw);
    hide TrimStart, Named, AttributeName;
    if StartsWith(line, "#[") {
      NameIsLongest(line[2..], "test");
      NameIsLongest(line[2..], "tokio::test");
      NameIsLongest(line[2..], "ignore");
    }
  }

  /** Which lines are functions, and which are comments or blank, after any indentation. */
  lemma FunctionsExact(raw: string)
    ensures var line := TrimStart(raw);
            && (Read(raw) == Function <==> "fn " <= line || "async fn " <= line || "pub fn " <= line || "pub async fn " <= line)
            && (Read(raw) == Filler <==> line == "" || "//" <= line)
  {
    hide TrimStart, AttributeName, StartsWith;
    var line := TrimStart(raw);
    PrefixIff(line, "#[");
    PrefixIff(line, "fn ");
    PrefixIff(line, "async fn ");
    PrefixIff(line, "pub fn ");
    PrefixIff(line, "pub async fn ");
    PrefixIff(line, "//");
  }

  lemma PrefixIff(line: string, prefix: string)
    requires prefix != ""
    ensures StartsWith(line, prefix) <==> prefix <= line
    ensures prefix <= line ==> line != "" && line[0] == prefix[0]
  {
    if |prefix| <= |line| && line[..|prefix|] == prefix { assert line[0] == line[..|prefix|][0]; }
  }

  /** The line, after any indentation, is no attribute, comment or blank: it clears the marks above it. */
  predicate Solid(raw: string) {
    var line := TrimStart(raw);
    line != "" && !("#[" <= line) && !("//" <= line)
  }

  lemma SolidClears(raw: string)
    ensures Solid(raw) <==> !Transparent(Read(raw))
  {
    FunctionsExact(raw);
    hide TrimStart, AttributeName, StartsWith;
    PrefixIff(TrimStart(raw), "#[");
    PrefixIff(TrimStart(raw), "fn ");
    PrefixIff(TrimStart(raw), "async fn ");
    PrefixIff(TrimStart(raw), "pub fn ");
    PrefixIff(TrimStart(raw), "pub async fn ");
    PrefixIff(TrimStart(raw), "//");
  }

  /** Indentation does not matter. */
  lemma IndentIrrelevant(c: char, raw: string)
    requires c == ' ' || 9 <= c as int <= 13
    ensures Read([c] + raw) == Read(raw)
  {
    assert SpaceLen([c] + raw, 0) == 1 && ([c] + raw)[1..] == raw;
  }

  /** Attribute, comment and blank lines leave the marks above them in force. */
  predicate Transparent(line: Line) { line != Function && line != Other }

  // ----- looking back from a function ---------------------------------------------------------

  /** The run of transparent lines that ends just before line `i` holds `mark`. */
  ghost predicate Marked(lines: seq<string>, i: nat, mark: Line)
    requires i <= |lines|
  {
    exists j :: 0 <= j < i && Read(lines[j]) == mark && Clear(lines, j, i)
  }

  ghost predicate Clear(lines: seq<string>, j: nat, i: nat)
    requires j <= i <= |lines|
  {
    forall m :: j <= m < i ==> Transparent(Read(lines[m]))
  }

  /** Line `i` is a test function, ignored or not. */
  ghost predicate IsTest(lines: seq<string>, i: nat, ignored: bool)
    requires i < |lines|
  {
    Read(lines[i]) == Function && Marked(lines, i, TestAttribute) && (ignored <==> Marked(lines, i, IgnoreAttribute))
  }

  /** How many of the first `n` lines are. */
  ghost function Count(lines: seq<string>, n: nat, ignored: bool): nat
    requires n <= |lines|
  {
    if n == 0 then 0 else Count(lines, n - 1, ignored) + if IsTest(lines, n - 1, ignored) then 1 else 0
  }

  lemma MarkedNext(lines: seq<string>, i: nat, mark: Line)
    requires i < |lines| && Transparent(mark)
    ensures Marked(lines, i + 1, mark) <==> Transparent(Read(lines[i])) && (Read(lines[i]) == mark || Marked(lines, i, mark))
  {
    hide Read;
    if Transparent(Read(lines[i])) && Read(lines[i]) == mark { assert Clear(lines, i, i + 1); }
    if Transparent(Read(lines[i])) && Marked(lines, i, mark) {
      var j :| 0 <= j < i && Read(lines[j]) == mark && Clear(lines, j, i);
      assert Clear(lines, j, i + 1);
    }
    if Marked(lines, i + 1, mark) && Read(lines[i]) != mark {
      var j :| 0 <= j < i + 1 && Read(lines[j]) == mark && Clear(lines, j, i + 1);
      assert Clear(lines, j, i);
    }
  }

  /** The loop of `count_tests`. */
  method CountLines(lines: seq<string>) returns (plain: nat, ignored: nat)
    ensures plain == Count(lines, |lines|, false) && ignored == Count(lines, |lines|, true)
  {
    hide Read, Marked;
    plain, ignored := 0, 0;
    var pendingTest, pendingIgnore := false, false;
    NothingMarked(lines);
    for i := 0 to |lines|
      invariant plain == Count(lines, i, false) && ignored == Count(lines, i, true)
      invariant pendingTest == Marked(lines, i, TestAttribute) && pendingIgnore == Marked(lines, i, IgnoreAttribute)
    {
      MarkedNext(lines, i, TestAttribute);
      MarkedNext(lines, i, IgnoreAttribute);
      match Read(lines[i])
      case TestAttribute => pendingTest := true;
      case IgnoreAttribute => pendingIgnore := true;
      case OtherAttribute =>
      case Function =>
        if pendingTest {
          if pendingIgnore { ignored := ignored + 1; } else { plain := plain + 1; }
        }
        pendingTest, pendingIgnore := false, false;
      case Filler =>
      case Other => pendingTest, pendingIgnore := false, false;
    }
  }

  /** `count_tests` */
  method CountTests(source: string) returns (plain: nat, ignored: nat)
    ensures plain == Count(Lines(source), |Lines(source)|, false) && ignored == Count(Lines(source), |Lines(source)|, true)
  {
    var lines := SplitLines(source);
    plain, ignored := CountLines(lines);
  }

  lemma NothingMarked(lines: seq<string>)
    ensures !Marked(lines, 0, TestAttribute) && !Marked(lines, 0, IgnoreAttribute)
  {
  }

  /** How many of the first `n` lines are functions with a test mark. */
  ghost function Tests(lines: seq<string>, n: nat): nat
    requires n <= |lines|
  {
    if n == 0 then 0
    else Tests(lines, n - 1) + if Read(lines[n - 1]) == Function && Marked(lines, n - 1, TestAttribute) then 1 else 0
  }

  /** Every test is counted once, and as ignored only if the file has an ignore mark. */
  lemma {:induction false} TestsCountedOnce(lines: seq<string>, n: nat)
    requires n <= |lines|
    ensures Count(lines, n, false) + Count(lines, n, true) == Tests(lines, n)
    ensures (forall i :: 0 <= i < n ==> !HasAttribute(lines[i], "ignore")) ==> Count(lines, n, true) == 0
    ensures (forall i :: 0 <= i < n ==> !HasAttribute(lines[i], "test") && !HasAttribute(lines[i], "tokio::test")) ==> Tests(lines, n) == 0
  {
    hide Read, HasAttribute;
    if n > 0 {
      TestsCountedOnce(lines, n - 1);
      forall i | 0 <= i < n ensures (Read(lines[i]) == IgnoreAttribute <==> HasAttribute(lines[i], "ignore"))
        && (Read(lines[i]) == TestAttribute <==> HasAttribute(lines[i], "test") || HasAttribute(lines[i], "tokio::test"))
      {
        MarksExact(lines[i]);
      }
    }
  }

  // ----- order within a run -----------------------------------------------------------------------

  /** `after` is `before` with the transparent lines a..b in another order. */
  ghost predicate Reordered(before: seq<string>, after: seq<string>, a: nat, b: nat) {
    && a <= b <= |before| == |after| && Clear(before, a, b)
    && (forall k :: 0 <= k < |before| && !(a <= k < b) ==> after[k] == before[k])
    && multiset(after[a..b]) == multiset(before[a..b])
  }

  lemma ReorderedBack(before: seq<string>, after: seq<string>, a: nat, b: nat)
    requires Reordered(before, after, a, b)
    ensures Reordered(after, before, a, b)
  {
    hide Read;
    forall m | a <= m < b ensures Transparent(Read(after[m])) {
      var j := Moved(after, before, a, b, m);
    }
  }

  /** Each line of the run stands somewhere in the run. */
  lemma Moved(before: seq<string>, after: seq<string>, a: nat, b: nat, m: nat) returns (j: nat)
    requires a <= m < b <= |before| == |after| && multiset(after[a..b]) == multiset(before[a..b])
    ensures a <= j < b && after[j] == before[m]
  {
    assert before[a..b][m - a] in multiset(before[a..b]);
    assert before[m] in after[a..b];
    var k :| 0 <= k < b - a && after[a..b][k] == before[m];
    j := a + k;
  }

  lemma MarkMoves(before: seq<string>, after: seq<string>, a: nat, b: nat, i: nat, mark: Line)
    requires Reordered(before, after, a, b) && i <= |before| && !(a < i < b) && Marked(before, i, mark)
    ensures Marked(after, i, mark)
  {
    ReorderedBack(before, after, a, b);
    hide Read;
    var j :| 0 <= j < i && Read(before[j]) == mark && Clear(before, j, i);
    if b <= i && a <= j < b {
      var j' := Moved(before, after, a, b, j);
      assert Clear(after, j', i);
    } else {
      assert Clear(after, j, i);
    }
  }

  lemma {:induction false} SameCount(before: seq<string>, after: seq<string>, a: nat, b: nat, n: nat, ignored: bool)
    requires Reordered(before, after, a, b) && n <= |before|
    ensures Count(after, n, ignored) == Count(before, n, ignored)
  {
    hide IsTest, Clear;
    if n > 0 {
      SameCount(before, after, a, b, n - 1, ignored);
      SameTest(before, after, a, b, n - 1, ignored);
    }
  }

  lemma SameTest(before: seq<string>, after: seq<string>, a: nat, b: nat, i: nat, ignored: bool)
    requires Reordered(before, after, a, b) && i < |before|
    ensures IsTest(after, i, ignored) <==> IsTest(before, i, ignored)
  {
    ReorderedBack(before, after, a, b);
    hide Read, Marked;
    if !(a <= i < b) {
      forall mark: Line ensures Marked(before, i, mark) <==> Marked(after, i, mark) {
        if Marked(before, i, mark) { MarkMoves(before, after, a, b, i, mark); }
        if Marked(after, i, mark) { MarkMoves(after, before, a, b, i, mark); }
      }
    }
  }

  /** The order of the lines between functions does not matter. */
  lemma OrderIrrelevant(before: seq<string>, after: seq<string>, a: nat, b: nat, ignored: bool)
    requires Reordered(before, after, a, b)
    ensures Count(after, |after|, ignored) == Count(before, |before|, ignored)
  {
    SameCount(before, after, a, b, |before|, ignored);
  }

  // ----- splitting a file -----------------------------------------------------------------------------

  lemma MarkedInside(xs: seq<string>, ys: seq<string>, i: nat, mark: Line)
    requires i <= |ys| && (xs == [] || !Transparent(Read(xs[|xs| - 1]))) && Marked(xs + ys, |xs| + i, mark)
    ensures Marked(ys, i, mark)
  {
    hide Read, Transparent;
    var all, n := xs + ys, |xs|;
    if n > 0 { assert all[n - 1] == xs[n - 1]; }
    var j :| 0 <= j < n + i && Read(all[j]) == mark && Clear(all, j, n + i);
    assert n <= j;
    forall m | j - n <= m < i ensures Transparent(Read(ys[m])) { assert all[n + m] == ys[m]; }
    assert Clear(ys, j - n, i);
  }

  lemma MarkedOutside(xs: seq<string>, ys: seq<string>, i: nat, mark: Line)
    requires i <= |ys| && Marked(ys, i, mark)
    ensures Marked(xs + ys, |xs| + i, mark)
  {
    hide Read, Transparent;
    var all, n := xs + ys, |xs|;
    var j :| 0 <= j < i && Read(ys[j]) == mark && Clear(ys, j, i);
    forall m | n + j <= m < n + i ensures Transparent(Read(all[m])) { assert all[m] == ys[m - n]; }
    assert Read(all[n + j]) == mark && Clear(all, n + j, n + i);
  }

  lemma MarkedAcross(xs: seq<string>, ys: seq<string>, i: nat, mark: Line)
    requires i <= |ys| && (xs == [] || !Transparent(Read(xs[|xs| - 1])))
    ensures Marked(xs + ys, |xs| + i, mark) <==> Marked(ys, i, mark)
  {
    hide Read, Transparent, Marked;
    if Marked(xs + ys, |xs| + i, mark) { MarkedInside(xs, ys, i, mark); }
    if Marked(ys, i, mark) { MarkedOutside(xs, ys, i, mark); }
  }

  lemma {:induction false} CountPrefix(xs: seq<string>, ys: seq<string>, n: nat, ignored: bool)
    requires n <= |xs|
    ensures Count(xs + ys, n, ignored) == Count(xs, n, ignored)
  {
    hide Read, Marked;
    if n > 0 {
      assert (xs + ys)[n - 1] == xs[n - 1];
      CountPrefix(xs, ys, n - 1, ignored);
      MarkedPrefix(xs, ys, n - 1, TestAttribute);
      MarkedPrefix(xs, ys, n - 1, IgnoreAttribute);
    }
  }

  lemma MarkedPrefix(xs: seq<string>, ys: seq<string>, i: nat, mark: Line)
    requires i <= |xs|
    ensures Marked(xs + ys, i, mark) <==> Marked(xs, i, mark)
  {
    hide Read;
    var all := xs + ys;
    assert forall m :: 0 <= m < i ==> all[m] == xs[m];
    if j :| 0 <= j < i && Read(all[j]) == mark && Clear(all, j, i) {
      forall m | j <= m < i ensures Transparent(Read(xs[m])) { assert all[m] == xs[m]; }
      assert Clear(xs, j, i);
    }
    if j :| 0 <= j < i && Read(xs[j]) == mark && Clear(xs, j, i) { assert Clear(all, j, i); }
  }

  lemma {:induction false} CountAcross(xs: seq<string>, ys: seq<string>, i: nat, ignored: bool)
    requires i <= |ys| && (xs == [] || !Transparent(Read(xs[|xs| - 1])))
    ensures Count(xs + ys, |xs| + i, ignored) == Count(xs, |xs|, ignored) + Count(ys, i, ignored)
  {
    hide Read, Marked;
    if i == 0 {
      CountPrefix(xs, ys, |xs|, ignored);
    } else {
      CountAcross(xs, ys, i - 1, ignored);
      MarkedAcross(xs, ys, i - 1, TestAttribute);
      MarkedAcross(xs, ys, i - 1, IgnoreAttribute);
      assert (xs + ys)[|xs| + i - 1] == ys[i - 1];
    }
  }

  /** Counts add up across a split just after a function (or any other line that clears the marks). */
  lemma CountsAdd(xs: seq<string>, ys: seq<string>, ignored: bool)
    requires xs == [] || Solid(xs[|xs| - 1])
    ensures Count(xs + ys, |xs + ys|, ignored) == Count(xs, |xs|, ignored) + Count(ys, |ys|, ignored)
  {
    if xs != [] { SolidClears(xs[|xs| - 1]); }
    CountAcross(xs, ys, |ys|, ignored);
  }

  /** A file cut after a function line and its newline has the tests of both parts. */
  lemma FilesAdd(a: string, b: string, ignored: bool)
    requires a != "" ==> a[|a| - 1] == '\n'
    requires var xs := Lines(a); xs == [] || Solid(xs[|xs| - 1])
    ensures Count(Lines(a + b), |Lines(a + b)|, ignored) == Count(Lines(a), |Lines(a)|, ignored) + Count(Lines(b), |Lines(b)|, ignored)
  {
    LinesJoin(a, b);
    hide Lines, Count;
    CountsAdd(Lines(a), Lines(b), ignored);
  }
}
