/** The classifier: which statements of a fragment block writers, and on which table. */
module Classifier {
  import opened Prelude
  import opened Ascii
  import opened Phrases
  import opened DollarQuotes
  import opened Targets

  datatype Kind =
    | BlockingIndex
    | ValidatingConstraint
    | ColumnRewrite
    | SetNotNull
    | VolatileDefault
    | UnboundedBackfill
    | TableRewrite
    | Backfill
    | Trigger
    | Toggle(clause: string)
    | Created

  datatype Hit = Hit(kind: Kind, table: string, at: nat)

  /** A phrase to look for, what it means, and how to find its table. */
  datatype Opener = Opener(kind: Kind, rule: Rule, words: Words)

  const DDL: seq<Opener> := [
    Opener(BlockingIndex, OnUnlessConcurrent, ["CREATE", "INDEX"]),
    Opener(BlockingIndex, OnUnlessConcurrent, ["CREATE", "UNIQUE", "INDEX"]),
    Opener(ValidatingConstraint, AlteredUnlessNotValid, ["ADD", "CONSTRAINT"]),
    Opener(ColumnRewrite, AlteredIfAlter, ["TYPE"]),
    Opener(SetNotNull, Altered, ["SET", "NOT", "NULL"])]

  const BACKFILLS: seq<Opener> := [
    Opener(UnboundedBackfill, Named, ["UPDATE"]),
    Opener(UnboundedBackfill, Named, ["DELETE", "FROM"])]

  const REWRITES: seq<Opener> := [
    Opener(TableRewrite, NamedUnlessConcurrent, ["CLUSTER"]),
    Opener(TableRewrite, NamedUnlessConcurrent, ["VACUUM", "FULL"]),
    Opener(TableRewrite, NamedUnlessConcurrent, ["REINDEX", "TABLE"]),
    Opener(TableRewrite, NamedUnlessConcurrent, ["REINDEX", "INDEX"])]

  ghost predicate Keywords(os: seq<Opener>) {
    forall k :: 0 <= k < |os| ==> Keyword(os[k].words)
  }

  predicate Scannable(os: seq<Opener>) {
    forall k :: 0 <= k < |os| ==> os[k].words != [] && os[k].words[0] != ""
  }

  lemma IndexPhrases()
    ensures Keyword(["CREATE", "INDEX"]) && Keyword(["CREATE", "UNIQUE", "INDEX"])
  {
    assert Lower("UNIQUE"[0]) != Lower("CREATE"[0]);
  }

  lemma AlterPhrases()
    ensures Keyword(["ADD", "CONSTRAINT"]) && Keyword(["TYPE"]) && Keyword(["SET", "NOT", "NULL"])
  {
    assert Lower("NOT"[0]) != Lower("SET"[0]);
  }

  lemma BackfillPhrases()
    ensures Keyword(["UPDATE"]) && Keyword(["DELETE", "FROM"])
  {
  }

  lemma RewritePhrases()
    ensures Keyword(["CLUSTER"]) && Keyword(["VACUUM", "FULL"]) && Keyword(["REINDEX", "TABLE"]) && Keyword(["REINDEX", "INDEX"])
  {
  }

  lemma ClassifierPhrases()
    ensures Keywords(DDL) && Keywords(BACKFILLS) && Keywords(REWRITES)
  {
    hide Keyword;
    IndexPhrases();
    AlterPhrases();
    BackfillPhrases();
    RewritePhrases();
  }

  lemma KeywordsScannable(os: seq<Opener>)
    requires Keywords(os)
    ensures Scannable(os)
  {
  }

  // ----- one opener ------------------------------------------------------------------

  function HitOf(stmt: string, o: Opener, m: Span): seq<Hit> {
    match Target(o.rule, stmt, m)
    case None => []
    case Some(t) => [Hit(o.kind, t, m.start)]
  }

  function Hits(stmt: string, o: Opener, ms: seq<Span>): seq<Hit> {
    if ms == [] then [] else HitOf(stmt, o, ms[0]) + Hits(stmt, o, ms[1..])
  }

  lemma HitsStep(stmt: string, o: Opener, m: Span, rest: seq<Span>)
    ensures Hits(stmt, o, [m] + rest) == HitOf(stmt, o, m) + Hits(stmt, o, rest)
  {
    assert ([m] + rest)[1..] == rest;
  }

  lemma NoHits(stmt: string, o: Opener)
    ensures Hits(stmt, o, []) == []
  {
  }

  /** One `while let Some((s, e)) = find_phrase(stmt, opener, from)` loop. */
  method OpenerHits(stmt: string, o: Opener) returns (out: seq<Hit>)
    requires o.words != [] && o.words[0] != ""
    ensures out == Hits(stmt, o, Scan(stmt, o.words, 0))
  {
    hide Find, Scan, Target, Hits;
    out := [];
    var from: nat := 0;
    NoHits(stmt, o);
    while true
      invariant out + Hits(stmt, o, Scan(stmt, o.words, from)) == Hits(stmt, o, Scan(stmt, o.words, 0))
      decreases |stmt| - from
    {
      ScanStep(stmt, o.words, from);
      var m := FindPhrase(stmt, o.words, from);
      if m.None? { break; }
      HitsStep(stmt, o, m.value, Scan(stmt, o.words, m.value.end));
      from := m.value.end;
      var t := TargetOf(o.rule, stmt, m.value);
      if t.Some? { out := out + [Hit(o.kind, t.value, m.value.start)]; }
    }
  }

  /** Hit `h` is one of opener `o`, at an occurrence ending at `e`. */
  ghost predicate Reports(stmt: string, o: Opener, h: Hit, e: nat) {
    h.kind == o.kind && Occurs(stmt, o.words, h.at, e) && Aims(o.rule, stmt, h.at, e, h.table)
  }

  lemma {:induction false} HitsMembers(stmt: string, o: Opener, ms: seq<Span>, h: Hit)
    ensures h in Hits(stmt, o, ms) <==> exists m :: m in ms && h in HitOf(stmt, o, m)
  {
    hide HitOf;
    if ms != [] {
      HitsMembers(stmt, o, ms[1..], h);
      assert forall m :: m in ms <==> m == ms[0] || m in ms[1..];
    }
  }

  lemma HitOfExact(stmt: string, o: Opener, s: nat, e: nat, h: Hit)
    ensures h in HitOf(stmt, o, Span(s, e)) <==> h.kind == o.kind && h.at == s && Aims(o.rule, stmt, s, e, h.table)
  {
    hide Target, Aims;
    TargetExact(o.rule, stmt, s, e, h.table);
  }

  /** The loop of an opener reports exactly its aimed occurrences. */
  lemma OpenerExact(stmt: string, o: Opener, h: Hit)
    requires Keyword(o.words)
    ensures h in Hits(stmt, o, Scan(stmt, o.words, 0)) <==> exists e: nat :: Reports(stmt, o, h, e)
  {
    ScanEnumeratesOccurrences(stmt, o.words);
    hide Scan, Occurs, Aims, HitOf, Hits, Keyword;
    var ms := Scan(stmt, o.words, 0);
    HitsMembers(stmt, o, ms, h);
    if m :| m in ms && h in HitOf(stmt, o, m) {
      HitOfExact(stmt, o, m.start, m.end, h);
      assert Reports(stmt, o, h, m.end);
    }
    if e: nat :| Reports(stmt, o, h, e) {
      HitOfExact(stmt, o, h.at, e, h);
      assert Span(h.at, e) in ms;
    }
  }

  ghost predicate Increasing(hs: seq<Hit>) {
    forall i, j :: 0 <= i < j < |hs| ==> hs[i].at < hs[j].at
  }

  lemma {:induction false} HitsIncrease(stmt: string, o: Opener, ms: seq<Span>)
    requires forall i, j :: 0 <= i < j < |ms| ==> ms[i].start < ms[j].start
    ensures Increasing(Hits(stmt, o, ms))
  {
    hide Target;
    if ms != [] {
      var rest := Hits(stmt, o, ms[1..]);
      HitsIncrease(stmt, o, ms[1..]);
      forall h | h in rest ensures ms[0].start < h.at {
        HitsMembers(stmt, o, ms[1..], h);
        var m :| m in ms[1..] && h in HitOf(stmt, o, m);
      }
      forall k | 0 <= k < |rest| ensures ms[0].start < rest[k].at { assert rest[k] in rest; }
    }
  }

  /** It reports each of them once, in the order of the text. */
  lemma OpenerReportsOnce(stmt: string, o: Opener)
    requires Keyword(o.words)
    ensures Increasing(Hits(stmt, o, Scan(stmt, o.words, 0)))
  {
    ScanEnumeratesOccurrences(stmt, o.words);
    hide Scan, Hits, Occurs, Keyword;
    HitsIncrease(stmt, o, Scan(stmt, o.words, 0));
  }

  // ----- a list of openers --------------------------------------------------------------

  function AllHits(stmt: string, os: seq<Opener>): seq<Hit>
    requires Scannable(os)
  {
    if os == [] then [] else Hits(stmt, os[0], Scan(stmt, os[0].words, 0)) + AllHits(stmt, os[1..])
  }

  method CollectHits(stmt: string, os: seq<Opener>) returns (out: seq<Hit>)
    requires Scannable(os)
    ensures out == AllHits(stmt, os)
  {
    hide Scan, Hits;
    out := [];
    var k := 0;
    while k < |os|
      invariant k <= |os| && out + AllHits(stmt, os[k..]) == AllHits(stmt, os)
    {
      var hits := OpenerHits(stmt, os[k]);
      assert os[k..][1..] == os[k + 1..];
      out := out + hits;
      k := k + 1;
    }
  }

  ghost predicate ReportedBy(stmt: string, os: seq<Opener>, h: Hit) {
    exists k, e: nat :: 0 <= k < |os| && Reports(stmt, os[k], h, e)
  }

  lemma {:induction false} AllHitsExact(stmt: string, os: seq<Opener>, h: Hit)
    requires Keywords(os)
    ensures h in AllHits(stmt, os) <==> ReportedBy(stmt, os, h)
  {
    hide Hits, Scan, Reports;
    if os != [] {
      OpenerExact(stmt, os[0], h);
      AllHitsExact(stmt, os[1..], h);
      if k, e: nat :| 0 <= k < |os| && Reports(stmt, os[k], h, e) {
        if k > 0 { assert Reports(stmt, os[1..][k - 1], h, e); }
      }
    }
  }

  // ----- each hit once ------------------------------------------------------------------

  ghost predicate NoRepeats<T>(xs: seq<T>) {
    forall i, j :: 0 <= i < j < |xs| ==> xs[i] != xs[j]
  }

  /** Openers of one kind are never found at the same place. */
  ghost predicate Exclusive(os: seq<Opener>) {
    forall i, j :: 0 <= i < j < |os| && os[i].kind == os[j].kind ==> Apart(os[i].words, os[j].words)
  }

  lemma JoinNoRepeats<T>(xs: seq<T>, ys: seq<T>)
    requires NoRepeats(xs) && NoRepeats(ys) && forall x :: x in xs ==> x !in ys
    ensures NoRepeats(xs + ys)
  {
    var zs := xs + ys;
    forall i, j | 0 <= i < j < |zs| ensures zs[i] != zs[j] {
      if i < |xs| <= j { assert xs[i] in xs && ys[j - |xs|] in ys; }
    }
  }

  lemma OpenersMeet(stmt: string, o: Opener, os: seq<Opener>, k: nat, h: Hit)
    requires k < |os| && Keyword(o.words) && Keyword(os[k].words) && (o.kind == os[k].kind ==> Apart(o.words, os[k].words))
    requires exists e: nat :: Reports(stmt, o, h, e)
    ensures forall e: nat :: !Reports(stmt, os[k], h, e)
  {
    hide Aims, Occurs, Keyword, Apart;
    var e: nat :| Reports(stmt, o, h, e);
    forall e': nat ensures !Reports(stmt, os[k], h, e') {
      if o.kind == os[k].kind { ApartNeverMeet(stmt, o.words, os[k].words, h.at, e, e'); }
    }
  }

  lemma {:induction false} AllHitsOnce(stmt: string, os: seq<Opener>)
    requires Keywords(os) && Exclusive(os)
    ensures NoRepeats(AllHits(stmt, os))
  {
    if os != [] {
      var o, rest := os[0], os[1..];
      var hs := Hits(stmt, o, Scan(stmt, o.words, 0));
      OpenerReportsOnce(stmt, o);
      AllHitsOnce(stmt, rest);
      hide Hits, Scan, Reports, Keyword, Apart;
      forall h | h in hs ensures h !in AllHits(stmt, rest) {
        OpenerExact(stmt, o, h);
        AllHitsExact(stmt, rest, h);
        forall k | 0 <= k < |rest| ensures forall e: nat :: !Reports(stmt, rest[k], h, e) {
          assert rest[k] == os[k + 1];
          OpenersMeet(stmt, o, rest, k, h);
        }
      }
      JoinNoRepeats(hs, AllHits(stmt, rest));
    }
  }

  lemma IndexesApart()
    ensures Apart(["CREATE", "INDEX"], ["CREATE", "UNIQUE", "INDEX"])
  {
    assert DifferAt(["CREATE", "INDEX"], ["CREATE", "UNIQUE", "INDEX"], 1);
  }

  lemma BackfillsApart()
    ensures Apart(["UPDATE"], ["DELETE", "FROM"])
  {
    assert Lower("UPDATE"[0]) != Lower("DELETE"[0]);
    assert DifferAt(["UPDATE"], ["DELETE", "FROM"], 0);
  }

  lemma RewritesApart()
    ensures Apart(["CLUSTER"], ["VACUUM", "FULL"]) && Apart(["CLUSTER"], ["REINDEX", "TABLE"]) && Apart(["CLUSTER"], ["REINDEX", "INDEX"])
    ensures Apart(["VACUUM", "FULL"], ["REINDEX", "TABLE"]) && Apart(["VACUUM", "FULL"], ["REINDEX", "INDEX"])
    ensures Apart(["REINDEX", "TABLE"], ["REINDEX", "INDEX"])
  {
    assert Lower("CLUSTER"[0]) != Lower("REINDEX"[0]) && Lower("TABLE"[0]) != Lower("INDEX"[0]);
    assert DifferAt(["CLUSTER"], ["VACUUM", "FULL"], 0);
    assert DifferAt(["CLUSTER"], ["REINDEX", "TABLE"], 0) && DifferAt(["CLUSTER"], ["REINDEX", "INDEX"], 0);
    assert DifferAt(["VACUUM", "FULL"], ["REINDEX", "TABLE"], 0) && DifferAt(["VACUUM", "FULL"], ["REINDEX", "INDEX"], 0);
    assert DifferAt(["REINDEX", "TABLE"], ["REINDEX", "INDEX"], 1);
  }

  lemma ClassifierExclusive()
    ensures Exclusive(DDL) && Exclusive(BACKFILLS) && Exclusive(REWRITES)
  {
    hide Apart;
    IndexesApart();
    BackfillsApart();
    RewritesApart();
  }

  // ----- volatile column defaults ------------------------------------------------------------

  const ADD_COLUMN: Words := ["ADD", "COLUMN"]
  const DEFAULT: Words := ["DEFAULT"]
  const CALLS: seq<string> := ["gen_random_uuid(", "uuid_generate_v4(", "random(", "clock_timestamp("]

  /** One of the calls occurs in `text`, which is in lower case. */
  predicate Calls(text: string, calls: seq<string>) {
    exists k :: 0 <= k < |calls| && FindSub(text, calls[k], 0).Some?
  }

  /** Some call, in any case and not necessarily a whole word, is spelled at or after `from`. */
  ghost predicate CallFrom(stmt: string, calls: seq<string>, from: nat) {
    exists k, p: nat :: 0 <= k < |calls| && from <= p && WordAt(stmt, calls[k], p)
  }

  ghost predicate LowerCase(s: string) {
    forall j :: 0 <= j < |s| ==> Lower(s[j]) == s[j]
  }

  lemma {:induction false} LowerAllAt(s: string, k: nat)
    requires k < |s|
    ensures LowerAll(s)[k] == Lower(s[k])
  {
    if k > 0 { LowerAllAt(s[1..], k - 1); }
  }

  lemma LowerSpelling(stmt: string, call: string, from: nat, p: nat)
    requires from <= |stmt| && LowerCase(call)
    ensures SubAt(LowerAll(stmt[from..]), call, p) <==> WordAt(stmt, call, from + p)
  {
    var low := LowerAll(stmt[from..]);
    if p + |call| <= |low| {
      var sub := low[p..p + |call|];
      forall j | 0 <= j < |call| ensures sub[j] == Lower(stmt[from + p + j]) && Lower(call[j]) == call[j] {
        LowerAllAt(stmt[from..], p + j);
      }
      assert sub == call <==> forall j :: 0 <= j < |call| ==> sub[j] == call[j];
    }
  }

  lemma CallsExact(stmt: string, calls: seq<string>, from: nat)
    requires from <= |stmt| && forall k :: 0 <= k < |calls| ==> LowerCase(calls[k])
    ensures Calls(LowerAll(stmt[from..]), calls) <==> CallFrom(stmt, calls, from)
  {
    hide LowerAll, LowerCase, WordAt, SubAt;
    var low := LowerAll(stmt[from..]);
    if k :| 0 <= k < |calls| && FindSub(low, calls[k], 0).Some? {
      var p := FindSub(low, calls[k], 0).value;
      LowerSpelling(stmt, calls[k], from, p);
      assert WordAt(stmt, calls[k], from + p);
    }
    if k, p: nat :| 0 <= k < |calls| && from <= p && WordAt(stmt, calls[k], p) {
      var q := p - from;
      LowerSpelling(stmt, calls[k], from, q);
      assert p == from + q;
    }
  }

  function VolatileHits(stmt: string, calls: seq<string>): seq<Hit> {
    match Find(stmt, ADD_COLUMN, 0)
    case None => []
    case Some(a) =>
      match Find(stmt, DEFAULT, a.end)
      case None => []
      case Some(d) =>
        FindInside(stmt, DEFAULT, a.end);
        if !Calls(LowerAll(stmt[d.end..]), calls) then []
        else match AlterTarget(stmt, a.start)
          case None => []
          case Some(t) => [Hit(VolatileDefault, t, a.start)]
  }

  /** The ADD COLUMN part of `classify`. */
  method CollectVolatile(stmt: string, calls: seq<string>) returns (out: seq<Hit>)
    ensures out == VolatileHits(stmt, calls)
  {
    hide Find, AlterTarget, LowerAll, FindSub;
    out := [];
    var a := FindPhrase(stmt, ADD_COLUMN, 0);
    if a.None? { return; }
    var d := FindPhrase(stmt, DEFAULT, a.value.end);
    if d.None? { return; }
    FindInside(stmt, DEFAULT, a.value.end);
    var tail := LowerAll(stmt[d.value.end..]);
    var k, volatile := 0, false;
    while k < |calls|
      invariant k <= |calls| && (volatile <==> exists j :: 0 <= j < k && FindSub(tail, calls[j], 0).Some?)
    {
      var found := FindSub(tail, calls[k], 0);
      volatile := volatile || found.Some?;
      k := k + 1;
    }
    if !volatile { return; }
    var t := TargetOfAlter(stmt, a.value.start);
    if t.Some? { out := [Hit(VolatileDefault, t.value, a.value.start)]; }
  }

  /** The first ADD COLUMN, whose first later DEFAULT has a volatile call after it. */
  ghost predicate VolatileAt(stmt: string, calls: seq<string>, h: Hit) {
    && h.kind == VolatileDefault && NamedByAlter(stmt, h.at, h.table)
    && exists e: nat, d: nat, de: nat :: First(stmt, ADD_COLUMN, 0, h.at, e) && First(stmt, DEFAULT, e, d, de) && CallFrom(stmt, calls, de)
  }

  lemma ColumnPhrases()
    ensures Keyword(ADD_COLUMN) && Keyword(DEFAULT)
  {
  }

  lemma VolatileExact(stmt: string, calls: seq<string>, h: Hit)
    requires forall k :: 0 <= k < |calls| ==> LowerCase(calls[k])
    ensures h in VolatileHits(stmt, calls) <==> VolatileAt(stmt, calls, h)
  {
    ColumnPhrases();
    hide Find, First, Calls, CallFrom, LowerAll, AlterTarget, NamedByAlter, Keyword, LowerCase;
    FindIffFirst(stmt, ADD_COLUMN, 0);
    var a := Find(stmt, ADD_COLUMN, 0);
    if a.Some? {
      assert First(stmt, ADD_COLUMN, 0, a.value.start, a.value.end);
      FindIffFirst(stmt, DEFAULT, a.value.end);
      var d := Find(stmt, DEFAULT, a.value.end);
      AlterExact(stmt, a.value.start, h.table);
      if d.Some? {
        FindInside(stmt, DEFAULT, a.value.end);
        CallsExact(stmt, calls, d.value.end);
        assert First(stmt, DEFAULT, a.value.end, d.value.start, d.value.end);
      }
    }
  }

  // ----- a whole fragment ----------------------------------------------------------------------

  const LIMIT: Words := ["LIMIT"]
  const LOOP: Words := ["LOOP"]

  predicate Batched(stmt: string) {
    Find(stmt, LIMIT, 0).Some? || Find(stmt, LOOP, 0).Some?
  }

  function Classified(stmt: string): seq<Hit> {
    AllHits(stmt, DDL) + VolatileHits(stmt, CALLS) + (if Batched(stmt) then [] else AllHits(stmt, BACKFILLS)) + AllHits(stmt, REWRITES)
  }

  /** `classify` */
  method Classify(stmt: string) returns (out: seq<Hit>)
    ensures out == Classified(stmt)
  {
    hide Find, AllHits, VolatileHits;
    out := CollectHits(stmt, DDL);
    var volatile := CollectVolatile(stmt, CALLS);
    out := out + volatile;
    var limit := FindPhrase(stmt, LIMIT, 0);
    var loop := FindPhrase(stmt, LOOP, 0);
    if limit.None? && loop.None? {
      var backfills := CollectHits(stmt, BACKFILLS);
      out := out + backfills;
    }
    var rewrites := CollectHits(stmt, REWRITES);
    out := out + rewrites;
  }

  /** What a fragment is reported for, in terms of the phrases that occur in it. */
  ghost predicate Blocks(stmt: string, h: Hit) {
    || ReportedBy(stmt, DDL, h)
    || VolatileAt(stmt, CALLS, h)
    || (ReportedBy(stmt, BACKFILLS, h) && !Follows(stmt, LIMIT, 0) && !Follows(stmt, LOOP, 0))
    || ReportedBy(stmt, REWRITES, h)
  }

  lemma BatchPhrases()
    ensures Keyword(LIMIT) && Keyword(LOOP)
  {
  }

  lemma CallsLowerCase()
    ensures forall k :: 0 <= k < |CALLS| ==> LowerCase(CALLS[k])
  {
  }

  /** A fragment is reported for exactly the aimed occurrences of the openers. */
  lemma ClassifyExact(stmt: string, h: Hit)
    ensures h in Classified(stmt) <==> Blocks(stmt, h)
  {
    BatchPhrases();
    ClassifierPhrases();
    CallsLowerCase();
    hide Find, AllHits, VolatileHits, ReportedBy, VolatileAt, Follows, Keyword, LowerCase, Keywords;
    FindIffFirst(stmt, LIMIT, 0);
    FindIffFirst(stmt, LOOP, 0);
    AllHitsExact(stmt, DDL, h);
    VolatileExact(stmt, CALLS, h);
    AllHitsExact(stmt, BACKFILLS, h);
    AllHitsExact(stmt, REWRITES, h);
  }

  /** The kinds of the four groups differ. */
  lemma KindsOfGroups(stmt: string, h: Hit)
    ensures ReportedBy(stmt, DDL, h) ==> h.kind in {BlockingIndex, ValidatingConstraint, ColumnRewrite, SetNotNull}
    ensures VolatileAt(stmt, CALLS, h) ==> h.kind == VolatileDefault
    ensures ReportedBy(stmt, BACKFILLS, h) ==> h.kind == UnboundedBackfill
    ensures ReportedBy(stmt, REWRITES, h) ==> h.kind == TableRewrite
  {
    hide Occurs, Aims, First, NamedByAlter, CallFrom;
  }

  /** And it is reported once for each. */
  lemma ClassifiedOnce(stmt: string)
    ensures NoRepeats(Classified(stmt))
  {
    ClassifierPhrases();
    ClassifierExclusive();
    CallsLowerCase();
    AllHitsOnce(stmt, DDL);
    AllHitsOnce(stmt, BACKFILLS);
    AllHitsOnce(stmt, REWRITES);
    var a, b, d := AllHits(stmt, DDL), VolatileHits(stmt, CALLS), AllHits(stmt, REWRITES);
    var c := if Batched(stmt) then [] else AllHits(stmt, BACKFILLS);
    assert |b| <= 1;
    hide AllHits, VolatileHits, Batched, Keywords, LowerCase, ReportedBy, VolatileAt, Exclusive;
    forall h {:trigger h in a} {:trigger h in b} {:trigger h in c} {:trigger h in d}
      ensures (h in a ==> h !in b && h !in c && h !in d) && (h in b ==> h !in c && h !in d) && (h in c ==> h !in d)
    {
      AllHitsExact(stmt, DDL, h);
      VolatileExact(stmt, CALLS, h);
      AllHitsExact(stmt, BACKFILLS, h);
      AllHitsExact(stmt, REWRITES, h);
      KindsOfGroups(stmt, h);
    }
    JoinNoRepeats(a, b);
    JoinNoRepeats(a + b, c);
    JoinNoRepeats(a + b + c, d);
  }

  /** A blocking index is reported exactly at each CREATE [UNIQUE] INDEX that CONCURRENTLY does not
      follow at once, on the table named after the next ON. */
  lemma BlockingIndexExact(stmt: string, table: string, s: nat)
    ensures Hit(BlockingIndex, table, s) in Classified(stmt) <==>
              exists e: nat ::
                && (Occurs(stmt, ["CREATE", "INDEX"], s, e) || Occurs(stmt, ["CREATE", "UNIQUE", "INDEX"], s, e))
                && !OccursAt(stmt, ["CONCURRENTLY"], SkipSpace(stmt, e)) && NamedOn(stmt, e, table)
  {
    var h := Hit(BlockingIndex, table, s);
    ClassifyExact(stmt, h);
    hide Classified, Occurs, OccursAt, NamedOn, SkipSpace, First, CallFrom, Follows, NamedByAlter;
    if e: nat :| (Occurs(stmt, ["CREATE", "INDEX"], s, e) || Occurs(stmt, ["CREATE", "UNIQUE", "INDEX"], s, e))
                 && !OccursAt(stmt, CONCURRENTLY, SkipSpace(stmt, e)) && NamedOn(stmt, e, table)
    {
      assert Reports(stmt, DDL[0], h, e) || Reports(stmt, DDL[1], h, e);
    }
    if h in Classified(stmt) {
      assert ReportedBy(stmt, DDL, h);
      var k, e: nat :| 0 <= k < |DDL| && Reports(stmt, DDL[k], h, e);
      assert DDL[k] == DDL[0] || DDL[k] == DDL[1];
    }
  }

  /** A validating constraint: each ADD CONSTRAINT that no NOT VALID follows, on the table of the nearest ALTER TABLE. */
  lemma ConstraintExact(stmt: string, table: string, s: nat)
    ensures Hit(ValidatingConstraint, table, s) in Classified(stmt) <==> 
              exists e: nat :: Occurs(stmt, ["ADD", "CONSTRAINT"], s, e) && !Follows(stmt, ["NOT", "VALID"], e) && NamedByAlter(stmt, s, table)
  {
    var h := Hit(ValidatingConstraint, table, s);
    ClassifyExact(stmt, h);
    hide Classified, Occurs, OccursAt, NamedOn, SkipSpace, First, CallFrom, Follows, NamedByAlter;
    if e: nat :| Occurs(stmt, ["ADD", "CONSTRAINT"], s, e) && !Follows(stmt, ["NOT", "VALID"], e) && NamedByAlter(stmt, s, table) {
      assert Reports(stmt, DDL[2], h, e);
    }
    if h in Classified(stmt) {
      var k, e: nat :| 0 <= k < |DDL| && Reports(stmt, DDL[k], h, e);
      assert DDL[k] == DDL[2];
    }
  }

  /** A column rewrite: each TYPE, on the table of the nearest ALTER TABLE. */
  lemma RetypeExact(stmt: string, table: string, s: nat)
    ensures Hit(ColumnRewrite, table, s) in Classified(stmt) <==> exists e: nat :: Occurs(stmt, ["TYPE"], s, e) && NamedByAlter(stmt, s, table)
  {
    var h := Hit(ColumnRewrite, table, s);
    ClassifyExact(stmt, h);
    hide Classified, Occurs, OccursAt, NamedOn, SkipSpace, First, CallFrom, Follows, NamedByAlter;
    if e: nat :| Occurs(stmt, ["TYPE"], s, e) && NamedByAlter(stmt, s, table) {
      assert Reports(stmt, DDL[3], h, e);
    }
    if h in Classified(stmt) {
      var k, e: nat :| 0 <= k < |DDL| && Reports(stmt, DDL[k], h, e);
      assert DDL[k] == DDL[3];
    }
  }

  /** Each SET NOT NULL, on the table of the nearest ALTER TABLE. */
  lemma SetNotNullExact(stmt: string, table: string, s: nat)
    ensures Hit(SetNotNull, table, s) in Classified(stmt) <==> 
              exists e: nat :: Occurs(stmt, ["SET", "NOT", "NULL"], s, e) && NamedByAlter(stmt, s, table)
  {
    var h := Hit(SetNotNull, table, s);
    ClassifyExact(stmt, h);
    hide Classified, Occurs, OccursAt, NamedOn, SkipSpace, First, CallFrom, Follows, NamedByAlter;
    if e: nat :| Occurs(stmt, ["SET", "NOT", "NULL"], s, e) && NamedByAlter(stmt, s, table) {
      assert Reports(stmt, DDL[4], h, e);
    }
    if h in Classified(stmt) {
      var k, e: nat :| 0 <= k < |DDL| && Reports(stmt, DDL[k], h, e);
      assert DDL[k] == DDL[4];
    }
  }

  /** An unbounded backfill: each UPDATE or DELETE FROM of a statement without LIMIT and LOOP, on the table named next. */
  lemma BackfillExact(stmt: string, table: string, s: nat)
    ensures Hit(UnboundedBackfill, table, s) in Classified(stmt) <==>
              && !Follows(stmt, ["LIMIT"], 0) && !Follows(stmt, ["LOOP"], 0)
              && exists e: nat :: (Occurs(stmt, ["UPDATE"], s, e) || Occurs(stmt, ["DELETE", "FROM"], s, e)) && Ident(stmt, e) == Some(table)
  {
    var h := Hit(UnboundedBackfill, table, s);
    ClassifyExact(stmt, h);
    hide Classified, Occurs, OccursAt, NamedOn, SkipSpace, First, CallFrom, Follows, NamedByAlter, Ident;
    if e: nat :| (Occurs(stmt, ["UPDATE"], s, e) || Occurs(stmt, ["DELETE", "FROM"], s, e)) && Ident(stmt, e) == Some(table) {
      assert Reports(stmt, BACKFILLS[0], h, e) || Reports(stmt, BACKFILLS[1], h, e);
    }
    if h in Classified(stmt) {
      var k, e: nat :| 0 <= k < |BACKFILLS| && Reports(stmt, BACKFILLS[k], h, e);
      assert BACKFILLS[k] == BACKFILLS[0] || BACKFILLS[k] == BACKFILLS[1];
    }
  }

  ghost predicate RewriteAt(stmt: string, s: nat, e: nat) {
    || Occurs(stmt, ["CLUSTER"], s, e) || Occurs(stmt, ["VACUUM", "FULL"], s, e)
    || Occurs(stmt, ["REINDEX", "TABLE"], s, e) || Occurs(stmt, ["REINDEX", "INDEX"], s, e)
  }

  /** A table rewrite: each CLUSTER, VACUUM FULL or REINDEX that no CONCURRENTLY follows, on the name that comes next. */
  lemma RewriteExact(stmt: string, table: string, s: nat)
    ensures Hit(TableRewrite, table, s) in Classified(stmt) <==>
              exists e: nat :: RewriteAt(stmt, s, e) && !Follows(stmt, ["CONCURRENTLY"], e) && Ident(stmt, e) == Some(table)
  {
    var h := Hit(TableRewrite, table, s);
    ClassifyExact(stmt, h);
    hide Classified, Occurs, OccursAt, NamedOn, SkipSpace, First, CallFrom, Follows, NamedByAlter, Ident;
    if e: nat :| RewriteAt(stmt, s, e) && !Follows(stmt, ["CONCURRENTLY"], e) && Ident(stmt, e) == Some(table) {
      assert Reports(stmt, REWRITES[0], h, e) || Reports(stmt, REWRITES[1], h, e) || Reports(stmt, REWRITES[2], h, e) || Reports(stmt, REWRITES[3], h, e);
    }
    if h in Classified(stmt) {
      var k, e: nat :| 0 <= k < |REWRITES| && Reports(stmt, REWRITES[k], h, e);
      assert REWRITES[k] == REWRITES[0] || REWRITES[k] == REWRITES[1] || REWRITES[k] == REWRITES[2] || REWRITES[k] == REWRITES[3];
      assert RewriteAt(stmt, s, e);
    }
  }

  ghost predicate VolatileCall(stmt: string, p: nat) {
    || WordAt(stmt, "gen_random_uuid(", p) || WordAt(stmt, "uuid_generate_v4(", p)
    || WordAt(stmt, "random(", p) || WordAt(stmt, "clock_timestamp(", p)
  }

  /** A volatile default: the first ADD COLUMN, whose first later DEFAULT has a volatile call somewhere behind it. */
  lemma VolatileDefaultExact(stmt: string, table: string, s: nat)
    ensures Hit(VolatileDefault, table, s) in Classified(stmt) <==>
              && NamedByAlter(stmt, s, table)
              && exists e: nat, d: nat, de: nat, p: nat ::
                   First(stmt, ["ADD", "COLUMN"], 0, s, e) && First(stmt, ["DEFAULT"], e, d, de) && de <= p && VolatileCall(stmt, p)
  {
    var h := Hit(VolatileDefault, table, s);
    ClassifyExact(stmt, h);
    hide Classified, Occurs, OccursAt, NamedOn, SkipSpace, First, Follows, NamedByAlter, WordAt;
    if e: nat, d: nat, de: nat, p: nat :| First(stmt, ["ADD", "COLUMN"], 0, s, e) && First(stmt, ["DEFAULT"], e, d, de) && de <= p && VolatileCall(stmt, p) {
      assert WordAt(stmt, CALLS[0], p) || WordAt(stmt, CALLS[1], p) || WordAt(stmt, CALLS[2], p) || WordAt(stmt, CALLS[3], p);
      assert CallFrom(stmt, CALLS, de);
    }
    if h in Classified(stmt) {
      var e: nat, d: nat, de: nat :| First(stmt, ADD_COLUMN, 0, s, e) && First(stmt, DEFAULT, e, d, de) && CallFrom(stmt, CALLS, de);
      var k, p: nat :| 0 <= k < |CALLS| && de <= p && WordAt(stmt, CALLS[k], p);
      assert VolatileCall(stmt, p);
    }
  }

  /** A statement that LIMIT or LOOP bounds is never reported as an unbounded backfill. */
  lemma BatchedIsNoBackfill(stmt: string, table: string, s: nat)
    requires Follows(stmt, ["LIMIT"], 0) || Follows(stmt, ["LOOP"], 0)
    ensures Hit(UnboundedBackfill, table, s) !in Classified(stmt)
  {
    ClassifyExact(stmt, Hit(UnboundedBackfill, table, s));
    hide Classified, Occurs, Aims, Follows, First, NamedByAlter, CallFrom;
  }
}
