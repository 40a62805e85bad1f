/** Which table a matched phrase of a statement is aimed at. */
module Targets {
  import opened Prelude
  import opened Ascii
  import opened Phrases

  const ON: Words := ["ON"]
  const CONCURRENTLY: Words := ["CONCURRENTLY"]
  const SELECT: Words := ["SELECT"]
  const NOT_VALID: Words := ["NOT", "VALID"]
  const ALTER_TABLE: Words := ["ALTER", "TABLE"]

  lemma ClausePhrases()
    ensures Keyword(ON) && Keyword(CONCURRENTLY) && Keyword(SELECT) && Keyword(NOT_VALID)
  {
  }

  lemma AlterTablePhrase()
    ensures Keyword(ALTER_TABLE)
  {
    assert Lower("TABLE"[0]) != Lower("ALTER"[0]);
  }

  // ----- first and nearest occurrences --------------------------------------------------

  ghost predicate OccursAt(h: string, words: Words, s: nat) {
    exists e: nat :: Occurs(h, words, s, e)
  }

  ghost predicate Follows(h: string, words: Words, from: nat) {
    exists s: nat, e: nat :: from <= s && Occurs(h, words, s, e)
  }

  /** The first occurrence that starts at or after `from`. */
  ghost predicate First(h: string, words: Words, from: nat, s: nat, e: nat) {
    from <= s && Occurs(h, words, s, e) && forall s': nat, e': nat :: from <= s' && Occurs(h, words, s', e') ==> s <= s'
  }

  lemma FindIffFirst(h: string, words: Words, from: nat)
    requires Keyword(words)
    ensures Find(h, words, from).Some? <==> Follows(h, words, from)
    ensures forall s, e :: Find(h, words, from) == Some(Span(s, e)) <==> First(h, words, from, s, e)
  {
    KeywordSplit(words);
    FindIsLeftmost(h, words, from);
    hide Find, Occurs, Keyword, Split;
    forall s, e | First(h, words, from, s, e) ensures Find(h, words, from) == Some(Span(s, e)) {
      var m := Find(h, words, from).value;
      EndUnique(h, words, s, e, m.end);
    }
  }

  /** One step of a `while let Some((s, e)) = find_phrase(..)` loop. */
  lemma ScanStep(h: string, words: Words, from: nat)
    requires words != [] && words[0] != ""
    ensures Find(h, words, from).None? ==> Scan(h, words, from) == []
    ensures Find(h, words, from).Some? ==>
              var m := Find(h, words, from).value;
              from < m.end && from < |h| && Scan(h, words, from) == [m] + Scan(h, words, m.end)
  {
    if Find(h, words, from).Some? { MatchNonempty(h, words, Find(h, words, from).value.start); }
  }

  // ----- the table an ALTER clause belongs to ---------------------------------------------

  function BestEnd(ms: seq<Span>, pos: nat, best: Option<nat>): Option<nat> {
    if ms == [] || ms[0].start > pos then best else BestEnd(ms[1..], pos, Some(ms[0].end))
  }

  function AlterTarget(stmt: string, pos: nat): Option<string> {
    match BestEnd(Scan(stmt, ALTER_TABLE, 0), pos, None)
    case None => None
    case Some(e) => Ident(stmt, e)
  }

  /** `alter_target` */
  method TargetOfAlter(stmt: string, pos: nat) returns (r: Option<string>)
    ensures r == AlterTarget(stmt, pos)
  {
    hide Find, Scan, Ident;
    var best: Option<nat> := None;
    var from: nat := 0;
    while true
      invariant BestEnd(Scan(stmt, ALTER_TABLE, 0), pos, None) == BestEnd(Scan(stmt, ALTER_TABLE, from), pos, best)
      decreases |stmt| - from
    {
      ScanStep(stmt, ALTER_TABLE, from);
      var m := FindPhrase(stmt, ALTER_TABLE, from);
      if m.None? { break; }
      from := m.value.end;
      if m.value.start <= pos { best := Some(m.value.end); } else { break; }
    }
    if best.None? { return None; }
    r := IdentifierAfter(stmt, best.value);
  }

  /** The last occurrence of ALTER TABLE that starts at or before `pos`. */
  ghost predicate NearestAlter(stmt: string, pos: nat, s: nat, e: nat) {
    && s <= pos && Occurs(stmt, ["ALTER", "TABLE"], s, e)
    && forall s': nat, e': nat :: s' <= pos && Occurs(stmt, ["ALTER", "TABLE"], s', e') ==> s' <= s
  }

  lemma {:induction false} BestIsLast(ms: seq<Span>, pos: nat, best: Option<nat>, k: nat)
    requires k <= |ms| && (forall i :: 0 <= i < k ==> ms[i].start <= pos) && (forall i :: k <= i < |ms| ==> ms[i].start > pos)
    ensures BestEnd(ms, pos, best) == if k == 0 then best else Some(ms[k - 1].end)
  {
    if k > 0 { BestIsLast(ms[1..], pos, Some(ms[0].end), k - 1); }
  }

  /** ALTER clauses are attributed to the nearest preceding ALTER TABLE. */
  lemma AlterTargetIsNearest(stmt: string, pos: nat, s: nat, e: nat)
    requires NearestAlter(stmt, pos, s, e)
    ensures AlterTarget(stmt, pos) == Ident(stmt, e)
  {
    AlterTablePhrase();
    hide Ident, Occurs, Scan, Keyword, BestEnd;
    ScanEnumeratesOccurrences(stmt, ALTER_TABLE);
    var ms := Scan(stmt, ALTER_TABLE, 0);
    var k :| 0 <= k < |ms| && ms[k] == Span(s, e);
    forall i | 0 <= i < |ms| ensures i <= k <==> ms[i].start <= pos {
      assert Span(ms[i].start, ms[i].end) in ms;
      assert Occurs(stmt, ALTER_TABLE, ms[i].start, ms[i].end);
    }
    BestIsLast(ms, pos, None, k + 1);
  }

  lemma NoAlterNoTarget(stmt: string, pos: nat)
    requires forall s: nat, e: nat :: s <= pos ==> !Occurs(stmt, ALTER_TABLE, s, e)
    ensures AlterTarget(stmt, pos) == None
  {
    AlterTablePhrase();
    hide Ident, Occurs, Scan, Keyword, BestEnd;
    ScanEnumeratesOccurrences(stmt, ALTER_TABLE);
    var ms := Scan(stmt, ALTER_TABLE, 0);
    forall i | 0 <= i < |ms| ensures ms[i].start > pos {
      assert Span(ms[i].start, ms[i].end) in ms;
      assert Occurs(stmt, ALTER_TABLE, ms[i].start, ms[i].end);
    }
    BestIsLast(ms, pos, None, 0);
  }

  // ----- what a match is aimed at ---------------------------------------------------------

  /** How the table of a matched phrase is found. */
  datatype Rule =
    | OnUnlessConcurrent      // after the next ON, unless CONCURRENTLY comes at once
    | On                      // after the next ON
    | AlteredUnlessNotValid   // of the nearest ALTER TABLE, unless NOT VALID follows
    | AlteredIfAlter          // of the nearest ALTER TABLE, if there is an ALTER TABLE at all
    | Altered                 // of the nearest ALTER TABLE
    | Named                   // right after the phrase
    | NamedUnlessConcurrent   // right after the phrase, unless CONCURRENTLY follows
    | NamedIfSelect           // right after the phrase, if SELECT follows

  function TableAfterOn(stmt: string, e: nat): Option<string> {
    match Find(stmt, ON, e)
    case None => None
    case Some(m) => Ident(stmt, m.end)
  }

  /** CONCURRENTLY is the next thing after white space. */
  predicate ConcurrentAtOnce(stmt: string, e: nat) {
    var m := Find(stmt, CONCURRENTLY, e);
    m.Some? && m.value.start == SkipSpace(stmt, e)
  }

  function Target(rule: Rule, stmt: string, m: Span): Option<string> {
    match rule
    case OnUnlessConcurrent => if ConcurrentAtOnce(stmt, m.end) then None else TableAfterOn(stmt, m.end)
    case On => TableAfterOn(stmt, m.end)
    case AlteredUnlessNotValid => if Find(stmt, NOT_VALID, m.end).Some? then None else AlterTarget(stmt, m.start)
    case AlteredIfAlter => if Find(stmt, ALTER_TABLE, 0).None? then None else AlterTarget(stmt, m.start)
    case Altered => AlterTarget(stmt, m.start)
    case Named => Ident(stmt, m.end)
    case NamedUnlessConcurrent => if Find(stmt, CONCURRENTLY, m.end).Some? then None else Ident(stmt, m.end)
    case NamedIfSelect => if Find(stmt, SELECT, m.end).None? then None else Ident(stmt, m.end)
  }

  method NameAfterOn(stmt: string, e: nat) returns (r: Option<string>)
    ensures r == TableAfterOn(stmt, e)
  {
    hide Find, Ident;
    var m := FindPhrase(stmt, ON, e);
    if m.None? { return None; }
    r := IdentifierAfter(stmt, m.value.end);
  }

  /** The loop bodies of `classify` and `timeout_findings`. */
  method TargetOf(rule: Rule, stmt: string, m: Span) returns (r: Option<string>)
    ensures r == Target(rule, stmt, m)
  {
    hide Find, Ident, AlterTarget, TableAfterOn, SkipSpace;
    match rule
    case OnUnlessConcurrent =>
      var c := FindPhrase(stmt, CONCURRENTLY, m.end);
      var next := SkipWs(stmt, m.end);
      if c.Some? && c.value.start == next { return None; }
      r := NameAfterOn(stmt, m.end);
    case On => r := NameAfterOn(stmt, m.end);
    case AlteredUnlessNotValid =>
      var n := FindPhrase(stmt, NOT_VALID, m.end);
      if n.Some? { return None; }
      r := TargetOfAlter(stmt, m.start);
    case AlteredIfAlter =>
      var a := FindPhrase(stmt, ALTER_TABLE, 0);
      if a.None? { return None; }
      r := TargetOfAlter(stmt, m.start);
    case Altered => r := TargetOfAlter(stmt, m.start);
    case Named => r := IdentifierAfter(stmt, m.end);
    case NamedUnlessConcurrent =>
      var c := FindPhrase(stmt, CONCURRENTLY, m.end);
      if c.Some? { return None; }
      r := IdentifierAfter(stmt, m.end);
    case NamedIfSelect =>
      var s := FindPhrase(stmt, SELECT, m.end);
      if s.None? { return None; }
      r := IdentifierAfter(stmt, m.end);
  }

  ghost predicate NamedOn(stmt: string, from: nat, table: string) {
    exists a: nat, b: nat :: First(stmt, ["ON"], from, a, b) && Ident(stmt, b) == Some(table)
  }

  ghost predicate NamedByAlter(stmt: string, pos: nat, table: string) {
    exists a: nat, b: nat :: NearestAlter(stmt, pos, a, b) && Ident(stmt, b) == Some(table)
  }

  /** What the rules mean for an occurrence s..e, in terms of other occurrences. */
  ghost predicate Aims(rule: Rule, stmt: string, s: nat, e: nat, table: string) {
    match rule
    case OnUnlessConcurrent => NamedOn(stmt, e, table) && !OccursAt(stmt, ["CONCURRENTLY"], SkipSpace(stmt, e))
    case On => NamedOn(stmt, e, table)
    case AlteredUnlessNotValid => NamedByAlter(stmt, s, table) && !Follows(stmt, ["NOT", "VALID"], e)
    case AlteredIfAlter => NamedByAlter(stmt, s, table)
    case Altered => NamedByAlter(stmt, s, table)
    case Named => Ident(stmt, e) == Some(table)
    case NamedUnlessConcurrent => Ident(stmt, e) == Some(table) && !Follows(stmt, ["CONCURRENTLY"], e)
    case NamedIfSelect => Ident(stmt, e) == Some(table) && Follows(stmt, ["SELECT"], e)
  }

  lemma OnExact(stmt: string, from: nat, table: string)
    ensures TableAfterOn(stmt, from) == Some(table) <==> NamedOn(stmt, from, table)
  {
    ClausePhrases();
    FindIffFirst(stmt, ON, from);
    hide Find, First, Ident, Keyword;
    if TableAfterOn(stmt, from) == Some(table) {
      var m := Find(stmt, ON, from).value;
      assert First(stmt, ON, from, m.start, m.end);
    }
  }

  /** The white space before CONCURRENTLY holds no earlier occurrence of it. */
  lemma AtOnceExact(stmt: string, e: nat)
    ensures ConcurrentAtOnce(stmt, e) <==> OccursAt(stmt, CONCURRENTLY, SkipSpace(stmt, e))
  {
    ClausePhrases();
    FindIffFirst(stmt, CONCURRENTLY, e);
    var q := SkipSpace(stmt, e);
    if OccursAt(stmt, CONCURRENTLY, q) {
      var c: nat :| Occurs(stmt, CONCURRENTLY, q, c);
      var m := Find(stmt, CONCURRENTLY, e).value;
      assert First(stmt, CONCURRENTLY, e, m.start, m.end);
      SpaceStartsNoWord(stmt, CONCURRENTLY[0], m.start);
      assert m.start == q;
    }
    if ConcurrentAtOnce(stmt, e) {
      var m := Find(stmt, CONCURRENTLY, e).value;
      assert First(stmt, CONCURRENTLY, e, m.start, m.end);
    }
  }

  /** If any ALTER TABLE starts at or before `pos`, one of them is nearest. */
  lemma {:induction false} SomeNearest(stmt: string, pos: nat, from: nat) returns (s: nat, e: nat)
    requires from <= pos + 1
    requires exists a: nat, b: nat :: a < from && Occurs(stmt, ALTER_TABLE, a, b)
    requires forall a: nat, b: nat :: from <= a <= pos ==> !Occurs(stmt, ALTER_TABLE, a, b)
    ensures NearestAlter(stmt, pos, s, e)
  {
    hide Occurs;
    s := from - 1;
    if OccursAt(stmt, ALTER_TABLE, s) {
      e :| Occurs(stmt, ALTER_TABLE, s, e);
    } else {
      s, e := SomeNearest(stmt, pos, s);
    }
  }

  lemma AlterExact(stmt: string, pos: nat, table: string)
    ensures AlterTarget(stmt, pos) == Some(table) <==> NamedByAlter(stmt, pos, table)
  {
    hide Occurs, Ident, AlterTarget;
    if exists s: nat, e: nat :: s < pos + 1 && Occurs(stmt, ALTER_TABLE, s, e) {
      var s, e := SomeNearest(stmt, pos, pos + 1);
      AlterTargetIsNearest(stmt, pos, s, e);
      if NamedByAlter(stmt, pos, table) {
        var a: nat, b: nat :| NearestAlter(stmt, pos, a, b) && Ident(stmt, b) == Some(table);
        AlterTargetIsNearest(stmt, pos, a, b);
      }
    } else {
      NoAlterNoTarget(stmt, pos);
    }
  }

  lemma TargetExact(rule: Rule, stmt: string, s: nat, e: nat, table: string)
    ensures Target(rule, stmt, Span(s, e)) == Some(table) <==> Aims(rule, stmt, s, e, table)
  {
    hide Find, Ident, AlterTarget, TableAfterOn, Keyword, NamedOn, NamedByAlter, ConcurrentAtOnce, OccursAt, Follows, SkipSpace;
    ClausePhrases();
    match rule
    case OnUnlessConcurrent =>
      OnExact(stmt, e, table);
      AtOnceExact(stmt, e);
    case On => OnExact(stmt, e, table);
    case AlteredUnlessNotValid =>
      AlterExact(stmt, s, table);
      FindIffFirst(stmt, NOT_VALID, e);
    case AlteredIfAlter => 
      AlterExact(stmt, s, table);
      if NamedByAlter(stmt, s, table) { AlterMeansAlter(stmt, s, table); }
    case Altered => AlterExact(stmt, s, table);
    case Named =>
    case NamedUnlessConcurrent => FindIffFirst(stmt, CONCURRENTLY, e);
    case NamedIfSelect => FindIffFirst(stmt, SELECT, e);
  }

  /** The guard of the TYPE loop is implied by the attribution. */
  lemma AlterMeansAlter(stmt: string, pos: nat, table: string)
    requires NamedByAlter(stmt, pos, table)
    ensures Find(stmt, ALTER_TABLE, 0).Some?
  {
    AlterTablePhrase();
    hide Find, Ident, Occurs, Keyword;
    FindIffFirst(stmt, ALTER_TABLE, 0);
  }
}
