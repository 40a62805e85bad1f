/** The gate over one migration file: blocking statements on hot tables, and the lock-timeout rule. */
module MigrationGate {
  import opened Prelude
  import opened Ascii
  import opened Phrases
  import opened DollarQuotes
  import opened SqlMask
  import opened Targets
  import opened Classifier

  // ----- routine bodies ------------------------------------------------------------------

  const FUNCTION: Words := ["FUNCTION"]
  const PROCEDURE: Words := ["PROCEDURE"]

  /** Just after the last `;` before `start`, or 0. */
  function HeadStart(h: string, start: nat): (a: nat)
    requires start <= |h|
    ensures a <= start && (a == 0 || h[a - 1] == ';') && forall k :: a <= k < start ==> h[k] != ';'
  {
    if start == 0 || h[start - 1] == ';' then start else HeadStart(h, start - 1)
  }

  /** The text since the last `;` speaks of a function or procedure. */
  predicate OwnedByRoutine(h: string, start: nat) {
    && start <= |h|
    && var head := h[HeadStart(h, start)..start];
       Find(head, FUNCTION, 0).Some? || Find(head, PROCEDURE, 0).Some?
  }

  /** Byte `start` ends a `;`-free text a..start, preceded by `;` if by anything, that names FUNCTION or PROCEDURE. */
  ghost predicate RoutineHead(h: string, a: nat, start: nat) {
    && a <= start <= |h| && (a == 0 || h[a - 1] == ';') && (forall k :: a <= k < start ==> h[k] != ';')
    && (Follows(h[a..start], ["FUNCTION"], 0) || Follows(h[a..start], ["PROCEDURE"], 0))
  }

  /** Span `m` is a dollar-quoted routine body. */
  ghost predicate IsRoutineBody(h: string, m: Span) {
    m in Spans(h, 0) && exists a :: RoutineHead(h, a, m.start)
  }

  /** Byte `p` lies in a dollar-quoted routine body. */
  ghost predicate InRoutine(h: string, p: nat) {
    exists m :: IsRoutineBody(h, m) && m.start <= p < m.end
  }

  /** The routine bodies of the text, each of them. */
  ghost predicate ListsRoutines(h: string, routines: seq<Span>) {
    forall m :: m in routines <==> IsRoutineBody(h, m)
  }

  lemma RoutinePhrases()
    ensures Keyword(FUNCTION) && Keyword(PROCEDURE)
  {
  }

  lemma OwnedExact(h: string, start: nat)
    ensures OwnedByRoutine(h, start) <==> exists a :: RoutineHead(h, a, start)
  {
    RoutinePhrases();
    hide Find, Follows, Keyword;
    if start <= |h| {
      var a := HeadStart(h, start);
      FindIffFirst(h[a..start], FUNCTION, 0);
      FindIffFirst(h[a..start], PROCEDURE, 0);
      assert OwnedByRoutine(h, start) <==> RoutineHead(h, a, start);
      if b :| RoutineHead(h, b, start) { assert a == b; }
    }
  }

  /** `routine_bodies`: exactly the spans whose text since the last semicolon names FUNCTION or PROCEDURE. */
  method RoutineSpans(masked: string) returns (out: seq<Span>)
    ensures ListsRoutines(masked, out)
  {
    hide Spans, OwnedByRoutine, RoutineHead;
    var spans := DollarSpans(masked);
    out := [];
    for k := 0 to |spans|
      invariant forall m :: m in out <==> m in spans[..k] && IsRoutineBody(masked, m)
    {
      assert spans[..k + 1] == spans[..k] + [spans[k]];
      OwnedExact(masked, spans[k].start);
      if OwnedByRoutine(masked, spans[k].start) { out := out + [spans[k]]; }
    }
    assert spans[..|spans|] == spans;
  }

  /** Being inside one of them is being in a routine. */
  lemma InsideRoutines(h: string, routines: seq<Span>, p: nat)
    requires ListsRoutines(h, routines)
    ensures Inside(routines, p) <==> InRoutine(h, p)
  {
    hide IsRoutineBody;
    if k :| 0 <= k < |routines| && routines[k].start <= p < routines[k].end { assert IsRoutineBody(h, routines[k]); }
    if m :| IsRoutineBody(h, m) && m.start <= p < m.end {
      var k :| 0 <= k < |routines| && routines[k] == m;
    }
  }

  // ----- blocking statements on hot tables ---------------------------------------------------

  const CREATES: seq<Opener> := [
    Opener(Created, Named, ["CREATE", "TABLE"]),
    Opener(Created, Named, ["CREATE", "UNLOGGED", "TABLE"])]

  lemma TablePhrases()
    ensures Keyword(["CREATE", "TABLE"]) && Keyword(["CREATE", "UNLOGGED", "TABLE"])
  {
  }

  lemma CreatePhrases()
    ensures Keywords(CREATES)
  {
    hide Keyword;
    TablePhrases();
  }

  /** The file creates `table`. */
  ghost predicate Creates(masked: string, table: string) {
    exists at: nat :: ReportedBy(masked, CREATES, Hit(Created, table, at))
  }

  /** `tables_created` */
  method TablesCreated(masked: string) returns (out: set<string>)
    ensures forall t :: t in out <==> Creates(masked, t)
  {
    CreatePhrases();
    KeywordsScannable(CREATES);
    hide AllHits, Creates, Keywords, Scannable;
    var hits := CollectHits(masked, CREATES);
    out := {};
    var k := 0;
    while k < |hits|
      invariant k <= |hits| && forall t :: t in out <==> exists j :: 0 <= j < k && hits[j].table == t
    {
      out := out + {hits[k].table};
      k := k + 1;
    }
    forall t ensures t in out <==> Creates(masked, t) { CreatesExact(masked, t); }
  }

  lemma CreatesExact(masked: string, t: string)
    requires Scannable(CREATES)
    ensures Creates(masked, t) <==> var hits := AllHits(masked, CREATES); exists j :: 0 <= j < |hits| && hits[j].table == t
  {
    CreatePhrases();
    hide AllHits, ReportedBy, Keywords;
    var hits := AllHits(masked, CREATES);
    if j :| 0 <= j < |hits| && hits[j].table == t {
      AllHitsExact(masked, CREATES, hits[j]);
      CreatedOnly(masked, hits[j]);
      assert hits[j] == Hit(Created, t, hits[j].at);
    }
    if at: nat :| ReportedBy(masked, CREATES, Hit(Created, t, at)) {
      AllHitsExact(masked, CREATES, Hit(Created, t, at));
    }
  }

  /** A table is created exactly where a CREATE [UNLOGGED] TABLE names it. */
  lemma CreatesInText(masked: string, t: string)
    ensures Creates(masked, t) <==>
              exists s: nat, e: nat ::
                (Occurs(masked, ["CREATE", "TABLE"], s, e) || Occurs(masked, ["CREATE", "UNLOGGED", "TABLE"], s, e)) && Ident(masked, e) == Some(t)
  {
    hide Occurs, Ident;
    if s: nat, e: nat :| (Occurs(masked, ["CREATE", "TABLE"], s, e) || Occurs(masked, ["CREATE", "UNLOGGED", "TABLE"], s, e)) && Ident(masked, e) == Some(t) {
      var h := Hit(Created, t, s);
      assert Reports(masked, CREATES[0], h, e) || Reports(masked, CREATES[1], h, e);
    }
    if at: nat :| ReportedBy(masked, CREATES, Hit(Created, t, at)) {
      var k, e: nat :| 0 <= k < |CREATES| && Reports(masked, CREATES[k], Hit(Created, t, at), e);
      assert CREATES[k] == CREATES[0] || CREATES[k] == CREATES[1];
    }
  }

  lemma CreatedOnly(masked: string, h: Hit)
    requires ReportedBy(masked, CREATES, h)
    ensures h.kind == Created
  {
    hide Occurs, Aims;
  }

  datatype Finding = Finding(line: nat, kind: Kind, table: string)

  /** Hit `h` of statement `f` concerns a hot table outside every routine body. */
  ghost predicate Concerns(masked: string, hot: set<string>, f: Fragment, h: Hit) {
    IsStatement(masked, f) && h.table in hot && !InRoutine(masked, f.offset + h.at)
  }

  ghost predicate Gated(masked: string, hot: set<string>, f: Fragment, h: Hit) {
    Concerns(masked, hot, f, h) && Blocks(f.text, h) && !Creates(masked, h.table)
  }

  /** The finding for `h`, with its line in the original file. */
  ghost function FindingOf(src: string, f: Fragment, h: Hit): Finding
    requires f.offset + h.at <= |src|
  {
    Finding(1 + |NewlinesBefore(src, f.offset + h.at)|, h.kind, h.table)
  }

  /** An occurrence that the gate reports. */
  datatype Site = Site(f: Fragment, h: Hit)

  /** Every gated occurrence of the file, once, statement by statement. */
  ghost predicate SitesExact(masked: string, hot: set<string>, sites: seq<Site>) {
    && NoRepeats(sites)
    && (forall x :: x in sites <==> Gated(masked, hot, x.f, x.h))
    && (forall i, j :: 0 <= i < j < |sites| ==> sites[i].f.offset <= sites[j].f.offset)
  }

  /** The findings of these sites, one each. */
  ghost predicate Reported(src: string, sites: seq<Site>, out: seq<Finding>) {
    && |out| == |sites|
    && forall i :: 0 <= i < |sites| ==> sites[i].f.offset + sites[i].h.at <= |src| && out[i] == FindingOf(src, sites[i].f, sites[i].h)
  }

  lemma {:induction false} HitsAt(stmt: string, h: Hit)
    requires Blocks(stmt, h)
    ensures h.at < |stmt|
  {
    hide Aims, Spells, NamedByAlter, CallFrom;
  }

  /** Every gated occurrence of statement `f`, once. */
  ghost predicate SitesIn(masked: string, hot: set<string>, f: Fragment, sites: seq<Site>) {
    NoRepeats(sites) && forall x :: x in sites <==> x.f == f && Gated(masked, hot, f, x.h)
  }

  /** The hits of one statement that the gate lets through to the findings. */
  method StatementFindings(src: string, masked: string, hot: set<string>, created: set<string>, routines: seq<Span>, f: Fragment)
    returns (out: seq<Finding>)
    requires masked == Mask(src) && IsStatement(masked, f)
    requires ListsRoutines(masked, routines) && forall t :: t in created <==> Creates(masked, t)
    ensures exists sites :: SitesIn(masked, hot, f, sites) && Reported(src, sites, out)
  {
    hide Classified, Blocks, IsStatement, InRoutine, ListsRoutines, Creates, LineOf, Mask, NewlinesBefore;
    var hits := Classify(f.text);
    ClassifiedOnce(f.text);
    out := [];
    ghost var sites: seq<Site> := [];
    var k := 0;
    while k < |hits|
      invariant k <= |hits| && Reported(src, sites, out) && NoRepeats(sites)
      invariant forall x :: x in sites <==> x.f == f && x.h in hits[..k] && Gated(masked, hot, f, x.h)
    {
      var h := hits[k];
      ClassifyExact(f.text, h);
      InsideRoutines(masked, routines, f.offset + h.at);
      assert hits[..k + 1] == hits[..k] + [h] && h !in hits[..k];
      k := k + 1;
      if h.table !in hot || h.table in created { continue; }
      var abs := f.offset + h.at;
      if Inside(routines, abs) { continue; }
      SameLine(src, f, h);
      out := out + [Finding(LineOf(masked, abs), h.kind, h.table)];
      sites := sites + [Site(f, h)];
    }
    assert hits[..k] == hits;
    forall h | Gated(masked, hot, f, h) ensures h in hits { ClassifyExact(f.text, h); }
    assert SitesIn(masked, hot, f, sites);
  }

  lemma SameLine(src: string, f: Fragment, h: Hit)
    requires IsStatement(Mask(src), f) && Blocks(f.text, h)
    ensures f.offset + h.at <= |src| && |Mask(src)| == |src|
    ensures LineOf(Mask(src), f.offset + h.at) == 1 + |NewlinesBefore(src, f.offset + h.at)|
  {
    hide Blocks, LineOf, Mask, NewlinesBefore;
    HitsAt(f.text, h);
    FragmentLine(src, f, h.at);
    MaskShape(src);
  }

  /** The sites of the first `k` statements. */
  ghost predicate SitesOf(masked: string, hot: set<string>, frags: seq<Fragment>, k: nat, sites: seq<Site>)
    requires k <= |frags|
  {
    && NoRepeats(sites)
    && (forall x :: x in sites <==> x.f in frags[..k] && Gated(masked, hot, x.f, x.h))
    && (forall i, j :: 0 <= i < j < |sites| ==> sites[i].f.offset <= sites[j].f.offset)
  }

  lemma SitesNext(masked: string, hot: set<string>, frags: seq<Fragment>, k: nat, sites: seq<Site>, more: seq<Site>)
    requires Splits(masked, frags) && k < |frags| && SitesOf(masked, hot, frags, k, sites) && SitesIn(masked, hot, frags[k], more)
    ensures SitesOf(masked, hot, frags, k + 1, sites + more)
  {
    hide Splits, Gated, NoRepeats;
    assert frags[..k + 1] == frags[..k] + [frags[k]];
    forall x | x in sites ensures x.f.offset < frags[k].offset && x !in more {
      var i :| 0 <= i < k && frags[i] == x.f;
      StatementsAscend(masked, frags, i, k);
    }
    JoinNoRepeats(sites, more);
    var all := sites + more;
    forall i, j | 0 <= i < j < |all| ensures all[i].f.offset <= all[j].f.offset {
      if i < |sites| { assert sites[i] in sites; }
      if |sites| <= j { assert more[j - |sites|] in more; }
      if |sites| <= i { assert more[i - |sites|] in more; }
    }
  }

  lemma NoSites(masked: string, hot: set<string>, frags: seq<Fragment>)
    ensures SitesOf(masked, hot, frags, 0, [])
  {
  }

  lemma AllSites(masked: string, hot: set<string>, frags: seq<Fragment>, sites: seq<Site>)
    requires Splits(masked, frags) && SitesOf(masked, hot, frags, |frags|, sites)
    ensures SitesExact(masked, hot, sites)
  {
    hide Splits, IsStatement, Blocks, InRoutine, Creates;
    assert frags[..|frags|] == frags;
    forall x: Site | Gated(masked, hot, x.f, x.h) ensures x.f in frags { StatementsExact(masked, frags, x.f); }
  }

  lemma JoinReported(src: string, sites: seq<Site>, out: seq<Finding>, more: seq<Site>, found: seq<Finding>)
    requires Reported(src, sites, out) && Reported(src, more, found)
    ensures Reported(src, sites + more, out + found)
  {
    hide FindingOf;
  }

  /** `findings`, for one file: one finding for each gated occurrence, in order, at its line in the file. */
  method Findings(src: string, hot: set<string>) returns (out: seq<Finding>)
    ensures exists sites :: SitesExact(Mask(src), hot, sites) && Reported(src, sites, out)
  {
    hide Gated, Mask, Splits, IsStatement, ListsRoutines, Creates, Reported, SitesOf, SitesIn, SitesExact, NoRepeats;
    var masked := MaskSql(src);
    var created := TablesCreated(masked);
    var routines := RoutineSpans(masked);
    var frags := Statements(masked);
    out := [];
    ghost var sites: seq<Site> := [];
    NoSites(masked, hot, frags);
    NothingReported(src);
    var k := 0;
    while k < |frags|
      invariant k <= |frags| && SitesOf(masked, hot, frags, k, sites) && Reported(src, sites, out)
    {
      StatementsExact(masked, frags, frags[k]);
      var found := StatementFindings(src, masked, hot, created, routines, frags[k]);
      ghost var more :| SitesIn(masked, hot, frags[k], more) && Reported(src, more, found);
      SitesNext(masked, hot, frags, k, sites, more);
      JoinReported(src, sites, out, more, found);
      out := out + found;
      sites := sites + more;
      k := k + 1;
    }
    AllSites(masked, hot, frags, sites);
  }

  lemma NothingReported(src: string)
    ensures Reported(src, [], [])
  {
  }

  /** Byte `p` of the text lies in a dollar-quoted body whose owner, the text since the last semicolon, names FUNCTION or PROCEDURE. */
  ghost predicate InRoutineText(h: string, p: nat) {
    exists m, a :: m in Spans(h, 0) && m.start <= p < m.end && RoutineHead(h, a, m.start)
  }

  ghost predicate CreatedIn(masked: string, t: string) {
    exists s: nat, e: nat ::
      (Occurs(masked, ["CREATE", "TABLE"], s, e) || Occurs(masked, ["CREATE", "UNLOGGED", "TABLE"], s, e)) && Ident(masked, e) == Some(t)
  }

  lemma InRoutineMeans(h: string, p: nat)
    ensures InRoutine(h, p) <==> InRoutineText(h, p)
  {
    hide Spans, RoutineHead;
    if m, a :| m in Spans(h, 0) && m.start <= p < m.end && RoutineHead(h, a, m.start) { assert IsRoutineBody(h, m); }
  }

  /** What a listed finding says of the file, and that nothing of the kind is missing from the list. */
  lemma FindingsMean(src: string, hot: set<string>, sites: seq<Site>, out: seq<Finding>, x: Finding)
    requires SitesExact(Mask(src), hot, sites) && Reported(src, sites, out)
    ensures x in out <==>
              exists f, h ::
                && IsStatement(Mask(src), f) && Blocks(f.text, h) && f.offset + h.at <= |src|
                && h.table in hot && !CreatedIn(Mask(src), h.table) && !InRoutineText(Mask(src), f.offset + h.at)
                && x == Finding(1 + |NewlinesBefore(src, f.offset + h.at)|, h.kind, h.table)
  {
    hide IsStatement, Blocks, Mask, InRoutine, InRoutineText, Creates, CreatedIn, NewlinesBefore;
    if i :| 0 <= i < |out| && out[i] == x {
      var f, h := sites[i].f, sites[i].h;
      assert sites[i] in sites;
      CreatedMeans(Mask(src), h.table);
      InRoutineMeans(Mask(src), f.offset + h.at);
    }
    if f, h :| && IsStatement(Mask(src), f) && Blocks(f.text, h) && f.offset + h.at <= |src|
               && h.table in hot && !CreatedIn(Mask(src), h.table) && !InRoutineText(Mask(src), f.offset + h.at)
               && x == Finding(1 + |NewlinesBefore(src, f.offset + h.at)|, h.kind, h.table)
    {
      CreatedMeans(Mask(src), h.table);
      InRoutineMeans(Mask(src), f.offset + h.at);
      assert Site(f, h) in sites;
      var i :| 0 <= i < |sites| && sites[i] == Site(f, h);
      assert out[i] == x;
    }
  }

  lemma CreatedMeans(masked: string, t: string)
    ensures Creates(masked, t) <==> CreatedIn(masked, t)
  {
    hide Creates, Occurs, Ident;
    CreatesInText(masked, t);
  }

  // ----- how many -------------------------------------------------------------------------------

  /** The number the allowlist holds for a kind of statement on a table. */
  function Tally(out: seq<Finding>, kind: Kind, table: string): nat {
    if out == [] then 0
    else Tally(out[..|out| - 1], kind, table) + if out[|out| - 1].kind == kind && out[|out| - 1].table == table then 1 else 0
  }

  function SitesOn(sites: seq<Site>, kind: Kind, table: string): set<Site> {
    set x | x in sites && x.h.kind == kind && x.h.table == table
  }

  lemma OneMoreSite(sites: seq<Site>, x: Site, kind: Kind, table: string)
    requires x !in sites
    ensures |SitesOn(sites + [x], kind, table)| == |SitesOn(sites, kind, table)| + if x.h.kind == kind && x.h.table == table then 1 else 0
  {
    var before := SitesOn(sites, kind, table);
    assert SitesOn(sites + [x], kind, table) == if x.h.kind == kind && x.h.table == table then before + {x} else before;
  }

  lemma {:induction false} TallyCountsSites(sites: seq<Site>, out: seq<Finding>, kind: Kind, table: string)
    requires NoRepeats(sites) && |out| == |sites|
    requires forall i :: 0 <= i < |sites| ==> out[i].kind == sites[i].h.kind && out[i].table == sites[i].h.table
    ensures Tally(out, kind, table) == |SitesOn(sites, kind, table)|
  {
    if sites != [] {
      var n := |sites| - 1;
      TallyCountsSites(sites[..n], out[..n], kind, table);
      assert sites == sites[..n] + [sites[n]];
      hide SitesOn;
      OneMoreSite(sites[..n], sites[n], kind, table);
    } else {
      assert SitesOn(sites, kind, table) == {};
    }
  }

  /** The findings of a kind on a table are as many as its gated occurrences. */
  lemma FindingsCounted(src: string, hot: set<string>, sites: seq<Site>, out: seq<Finding>, kind: Kind, table: string, gated: set<Site>)
    requires SitesExact(Mask(src), hot, sites) && Reported(src, sites, out)
    requires forall x :: x in gated <==> Gated(Mask(src), hot, x.f, x.h) && x.h.kind == kind && x.h.table == table
    ensures Tally(out, kind, table) == |gated|
  {
    hide Gated, Mask;
    TallyCountsSites(sites, out, kind, table);
    assert gated == SitesOn(sites, kind, table);
  }

  // ----- the lock-timeout rule -------------------------------------------------------------------

  const CHANGES: seq<Opener> := [
    Opener(Backfill, Named, ["UPDATE"]),
    Opener(Backfill, Named, ["DELETE", "FROM"]),
    Opener(Backfill, NamedIfSelect, ["INSERT", "INTO"]),
    Opener(Trigger, On, ["CREATE", "TRIGGER"]),
    Opener(Trigger, On, ["CREATE", "OR", "REPLACE", "TRIGGER"]),
    Opener(Trigger, On, ["CREATE", "CONSTRAINT", "TRIGGER"])]

  const TOGGLES: seq<Opener> := [
    Opener(Toggle("DISABLE TRIGGER"), Altered, ["DISABLE", "TRIGGER"]),
    Opener(Toggle("ENABLE TRIGGER"), Altered, ["ENABLE", "TRIGGER"]),
    Opener(Toggle("ENABLE ALWAYS TRIGGER"), Altered, ["ENABLE", "ALWAYS", "TRIGGER"]),
    Opener(Toggle("ENABLE REPLICA TRIGGER"), Altered, ["ENABLE", "REPLICA", "TRIGGER"])]

  const SET_LOCAL_TIMEOUT: Words := ["SET", "LOCAL", "lock_timeout"]
  const SET_TIMEOUT: Words := ["SET", "lock_timeout"]

  lemma InsertPhrase()
    ensures Keyword(["INSERT", "INTO"])
  {
  }

  lemma TriggerPhrase()
    ensures Keyword(["CREATE", "TRIGGER"]) && Keyword(["CREATE", "CONSTRAINT", "TRIGGER"])
  {
  }

  lemma ReplacePhrase()
    ensures Keyword(["CREATE", "OR", "REPLACE", "TRIGGER"])
  {
  }

  lemma DisablePhrase()
    ensures Keyword(["DISABLE", "TRIGGER"])
  {
    assert Lower("TRIGGER"[0]) != Lower("DISABLE"[0]);
  }

  lemma EnablePhrase()
    ensures Keyword(["ENABLE", "TRIGGER"])
  {
  }

  lemma EnableAlwaysPhrase()
    ensures Keyword(["ENABLE", "ALWAYS", "TRIGGER"])
  {
    assert Lower("ALWAYS"[0]) != Lower("ENABLE"[0]);
  }

  lemma EnableReplicaPhrase()
    ensures Keyword(["ENABLE", "REPLICA", "TRIGGER"])
  {
  }

  lemma TimeoutPhrases()
    ensures Keyword(SET_LOCAL_TIMEOUT) && Keyword(SET_TIMEOUT)
  {
  }

  lemma GatePhrases()
    ensures Keywords(CHANGES) && Keywords(TOGGLES)
  {
    hide Keyword;
    BackfillPhrases();
    InsertPhrase();
    TriggerPhrase();
    ReplacePhrase();
    DisablePhrase();
    EnablePhrase();
    EnableAlwaysPhrase();
    EnableReplicaPhrase();
  }

  datatype Entry = Entry(kind: Kind, table: string)

  datatype Verdict = Fine | Forbidden(toggles: seq<Entry>) | Unbounded(reasons: seq<Entry>)

  function EntryOf(h: Hit): Entry { Entry(h.kind, h.table) }

  ghost predicate Distinct(list: seq<Entry>) {
    forall i, j :: 0 <= i < j < |list| ==> list[i] != list[j]
  }

  /** Some statement holds an occurrence that notes `en`. */
  ghost predicate Noted(masked: string, hot: set<string>, os: seq<Opener>, en: Entry) {
    exists f, h :: NotedAt(masked, hot, os, f, h) && en == EntryOf(h)
  }

  ghost predicate NotedAt(masked: string, hot: set<string>, os: seq<Opener>, f: Fragment, h: Hit) {
    Concerns(masked, hot, f, h) && ReportedBy(f.text, os, h)
  }

  ghost predicate BackfillAt(stmt: string, s: nat, e: nat) {
    || Occurs(stmt, ["UPDATE"], s, e) || Occurs(stmt, ["DELETE", "FROM"], s, e)
    || (Occurs(stmt, ["INSERT", "INTO"], s, e) && Follows(stmt, ["SELECT"], e))
  }

  ghost predicate TriggerAt(stmt: string, s: nat, e: nat) {
    || Occurs(stmt, ["CREATE", "TRIGGER"], s, e) || Occurs(stmt, ["CREATE", "OR", "REPLACE", "TRIGGER"], s, e)
    || Occurs(stmt, ["CREATE", "CONSTRAINT", "TRIGGER"], s, e)
  }

  /** What needs a lock_timeout: a backfill of the table named next, or a trigger on the table named after ON. */
  lemma ChangesExact(stmt: string, h: Hit)
    ensures ReportedBy(stmt, CHANGES, h) <==>
              || (h.kind == Backfill && exists e: nat :: BackfillAt(stmt, h.at, e) && Ident(stmt, e) == Some(h.table))
              || (h.kind == Trigger && exists e: nat :: TriggerAt(stmt, h.at, e) && NamedOn(stmt, e, h.table))
  {
    hide Occurs, Ident, Follows, NamedOn;
    if h.kind == Backfill {
      if e: nat :| BackfillAt(stmt, h.at, e) && Ident(stmt, e) == Some(h.table) {
        assert Reports(stmt, CHANGES[0], h, e) || Reports(stmt, CHANGES[1], h, e) || Reports(stmt, CHANGES[2], h, e);
      }
    }
    if h.kind == Trigger {
      if e: nat :| TriggerAt(stmt, h.at, e) && NamedOn(stmt, e, h.table) {
        assert Reports(stmt, CHANGES[3], h, e) || Reports(stmt, CHANGES[4], h, e) || Reports(stmt, CHANGES[5], h, e);
      }
    }
    if k, e: nat :| 0 <= k < |CHANGES| && Reports(stmt, CHANGES[k], h, e) {
      assert CHANGES[k] == CHANGES[0] || CHANGES[k] == CHANGES[1] || CHANGES[k] == CHANGES[2]
             || CHANGES[k] == CHANGES[3] || CHANGES[k] == CHANGES[4] || CHANGES[k] == CHANGES[5];
      assert h.kind == Backfill ==> BackfillAt(stmt, h.at, e);
      assert h.kind == Trigger ==> TriggerAt(stmt, h.at, e);
    }
  }

  ghost predicate ToggleAt(stmt: string, kind: Kind, s: nat, e: nat) {
    || (kind == Toggle("DISABLE TRIGGER") && Occurs(stmt, ["DISABLE", "TRIGGER"], s, e))
    || (kind == Toggle("ENABLE TRIGGER") && Occurs(stmt, ["ENABLE", "TRIGGER"], s, e))
    || (kind == Toggle("ENABLE ALWAYS TRIGGER") && Occurs(stmt, ["ENABLE", "ALWAYS", "TRIGGER"], s, e))
    || (kind == Toggle("ENABLE REPLICA TRIGGER") && Occurs(stmt, ["ENABLE", "REPLICA", "TRIGGER"], s, e))
  }

  /** What is forbidden: a trigger toggle, on the table of the nearest ALTER TABLE. */
  lemma TogglesExact(stmt: string, h: Hit)
    ensures ReportedBy(stmt, TOGGLES, h) <==> NamedByAlter(stmt, h.at, h.table) && exists e: nat :: ToggleAt(stmt, h.kind, h.at, e)
  {
    hide Occurs, NamedByAlter;
    if e: nat :| ToggleAt(stmt, h.kind, h.at, e) && NamedByAlter(stmt, h.at, h.table) {
      assert Reports(stmt, TOGGLES[0], h, e) || Reports(stmt, TOGGLES[1], h, e) || Reports(stmt, TOGGLES[2], h, e) || Reports(stmt, TOGGLES[3], h, e);
    }
    if k, e: nat :| 0 <= k < |TOGGLES| && Reports(stmt, TOGGLES[k], h, e) {
      assert TOGGLES[k] == TOGGLES[0] || TOGGLES[k] == TOGGLES[1] || TOGGLES[k] == TOGGLES[2] || TOGGLES[k] == TOGGLES[3];
      assert ToggleAt(stmt, h.kind, h.at, e);
    }
  }

  /** The `note` calls for one statement and one list of openers. */
  method NoteStatement(masked: string, hot: set<string>, routines: seq<Span>, os: seq<Opener>, f: Fragment, list: seq<Entry>)
    returns (out: seq<Entry>)
    requires IsStatement(masked, f) && ListsRoutines(masked, routines) && Keywords(os) && Scannable(os) && Distinct(list)
    ensures Distinct(out)
    ensures forall en :: en in out <==> en in list || exists h :: NotedAt(masked, hot, os, f, h) && en == EntryOf(h)
  {
    hide AllHits, IsStatement, InRoutine, ListsRoutines, ReportedBy, Keywords;
    var hits := CollectHits(f.text, os);
    out := list;
    var k := 0;
    while k < |hits|
      invariant k <= |hits| && Distinct(out) && forall en :: en in list ==> en in out
      invariant forall j :: 0 <= j < k && NotedAt(masked, hot, os, f, hits[j]) ==> EntryOf(hits[j]) in out
      invariant forall en :: en in out ==> en in list || exists h :: NotedAt(masked, hot, os, f, h) && en == EntryOf(h)
    {
      var h := hits[k];
      AllHitsExact(f.text, os, h);
      InsideRoutines(masked, routines, f.offset + h.at);
      var en := EntryOf(h);
      if h.table in hot && !Inside(routines, f.offset + h.at) && en !in out {
        assert NotedAt(masked, hot, os, f, h);
        out := out + [en];
      }
      k := k + 1;
    }
    forall h | NotedAt(masked, hot, os, f, h) ensures EntryOf(h) in out {
      AllHitsExact(f.text, os, h);
      var j :| 0 <= j < |hits| && hits[j] == h;
    }
  }

  /** The statements already seen note `en`. */
  ghost predicate NotedSoFar(masked: string, hot: set<string>, os: seq<Opener>, frags: seq<Fragment>, k: nat, en: Entry)
    requires k <= |frags|
  {
    exists j, h :: 0 <= j < k && NotedAt(masked, hot, os, frags[j], h) && en == EntryOf(h)
  }

  lemma NothingNoted(masked: string, hot: set<string>)
    ensures Distinct([])
    ensures forall os, frags, en :: !NotedSoFar(masked, hot, os, frags, 0, en)
  {
  }

  lemma NotedNext(masked: string, hot: set<string>, os: seq<Opener>, frags: seq<Fragment>, k: nat, was: seq<Entry>, list: seq<Entry>)
    requires k < |frags| && forall en :: en in was <==> NotedSoFar(masked, hot, os, frags, k, en)
    requires forall en :: en in list <==> en in was || exists h :: NotedAt(masked, hot, os, frags[k], h) && en == EntryOf(h)
    ensures forall en :: en in list <==> NotedSoFar(masked, hot, os, frags, k + 1, en)
  {
    hide NotedAt;
  }

  lemma NotedByAll(masked: string, hot: set<string>, os: seq<Opener>, frags: seq<Fragment>, en: Entry)
    requires Splits(masked, frags)
    ensures NotedSoFar(masked, hot, os, frags, |frags|, en) <==> Noted(masked, hot, os, en)
  {
    hide Splits, IsStatement, InRoutine, ReportedBy;
    if Noted(masked, hot, os, en) {
      var f, h :| NotedAt(masked, hot, os, f, h) && en == EntryOf(h);
      StatementsExact(masked, frags, f);
      var j :| 0 <= j < |frags| && frags[j] == f;
    }
  }

  /** What an entry means: some statement has such an occurrence on a hot table outside every routine body. */
  lemma NotedMeans(masked: string, hot: set<string>, os: seq<Opener>, en: Entry)
    ensures Noted(masked, hot, os, en) <==>
              en.table in hot &&
              exists f, at: nat ::
                IsStatement(masked, f) && !InRoutineText(masked, f.offset + at) && ReportedBy(f.text, os, Hit(en.kind, en.table, at))
  {
    hide IsStatement, InRoutine, InRoutineText, ReportedBy;
    if f, h :| NotedAt(masked, hot, os, f, h) && en == EntryOf(h) {
      InRoutineMeans(masked, f.offset + h.at);
      assert h == Hit(en.kind, en.table, h.at);
    }
    if f, at: nat :| en.table in hot && IsStatement(masked, f) && !InRoutineText(masked, f.offset + at) && ReportedBy(f.text, os, Hit(en.kind, en.table, at)) {
      InRoutineMeans(masked, f.offset + at);
      assert NotedAt(masked, hot, os, f, Hit(en.kind, en.table, at));
    }
  }

  /** The file sets lock_timeout somewhere. */
  ghost predicate SetsTimeout(masked: string) {
    Follows(masked, ["SET", "LOCAL", "lock_timeout"], 0) || Follows(masked, ["SET", "lock_timeout"], 0)
  }

  method FindsTimeout(masked: string) returns (r: bool)
    ensures r <==> SetsTimeout(masked)
  {
    TimeoutPhrases();
    FindIffFirst(masked, SET_LOCAL_TIMEOUT, 0);
    FindIffFirst(masked, SET_TIMEOUT, 0);
    hide Find, Follows, First, Keyword;
    var local := FindPhrase(masked, SET_LOCAL_TIMEOUT, 0);
    var plain := FindPhrase(masked, SET_TIMEOUT, 0);
    r := local.Some? || plain.Some?;
  }

  /** `timeout_findings`: toggles on a hot table are forbidden; backfills and triggers need a lock_timeout. */
  method TimeoutFindings(masked: string, hot: set<string>) returns (v: Verdict)
    ensures v.Forbidden? <==> exists en :: Noted(masked, hot, TOGGLES, en)
    ensures v.Forbidden? ==> Distinct(v.toggles) && forall en :: en in v.toggles <==> Noted(masked, hot, TOGGLES, en)
    ensures v.Unbounded? <==> !v.Forbidden? && !SetsTimeout(masked) && exists en :: Noted(masked, hot, CHANGES, en)
    ensures v.Unbounded? ==> Distinct(v.reasons) && forall en :: en in v.reasons <==> Noted(masked, hot, CHANGES, en)
  {
    GatePhrases();
    KeywordsScannable(CHANGES);
    KeywordsScannable(TOGGLES);
    hide Splits, IsStatement, ListsRoutines, NotedAt, Noted, NotedSoFar, Keywords, Scannable, SetsTimeout, Distinct;
    NothingNoted(masked, hot);
    var routines := RoutineSpans(masked);
    var frags := Statements(masked);
    var reasons: seq<Entry>, forbidden: seq<Entry> := [], [];
    var k := 0;
    while k < |frags|
      invariant k <= |frags| && Distinct(reasons) && Distinct(forbidden)
      invariant forall en :: en in reasons <==> NotedSoFar(masked, hot, CHANGES, frags, k, en)
      invariant forall en :: en in forbidden <==> NotedSoFar(masked, hot, TOGGLES, frags, k, en)
    {
      StatementsExact(masked, frags, frags[k]);
      var reasons' := NoteStatement(masked, hot, routines, CHANGES, frags[k], reasons);
      NotedNext(masked, hot, CHANGES, frags, k, reasons, reasons');
      var forbidden' := NoteStatement(masked, hot, routines, TOGGLES, frags[k], forbidden);
      NotedNext(masked, hot, TOGGLES, frags, k, forbidden, forbidden');
      reasons, forbidden := reasons', forbidden';
      k := k + 1;
    }
    forall en ensures (en in reasons <==> Noted(masked, hot, CHANGES, en)) && (en in forbidden <==> Noted(masked, hot, TOGGLES, en)) {
      NotedByAll(masked, hot, CHANGES, frags, en);
      NotedByAll(masked, hot, TOGGLES, frags, en);
    }
    if forbidden != [] {
      assert Noted(masked, hot, TOGGLES, forbidden[0]);
      return Forbidden(forbidden);
    }
    var sets := FindsTimeout(masked);
    if reasons == [] || sets { return Fine; }
    assert Noted(masked, hot, CHANGES, reasons[0]);
    return Unbounded(reasons);
  }
}
