/** The word-boundary phrase matcher and the identifier reader of the migration scanner. */
module Phrases {
  import opened Prelude
  import opened Ascii

  /** A needle split at white space. */
  type Words = seq<string>

  predicate IsWordByte(c: char) { IsAlphanumeric(c) || c == '_' }

  /** Words come from splitting at white space: none is empty, none holds a space. */
  ghost predicate Split(words: Words) {
    forall k :: 0 <= k < |words| ==> words[k] != "" && forall j :: 0 <= j < |words[k]| ==> !IsSpace(words[k][j])
  }

  predicate WordAt(h: string, w: string, p: nat) {
    p + |w| <= |h| && forall j :: 0 <= j < |w| ==> Lower(h[p + j]) == Lower(w[j])
  }

  function SkipSpace(h: string, p: nat): (q: nat)
    ensures p <= q && (p <= |h| ==> q <= |h|)
    ensures forall k :: p <= k < q ==> k < |h| && IsSpace(h[k])
    ensures q < |h| ==> !IsSpace(h[q])
    decreases |h| - p
  {
    if p < |h| && IsSpace(h[p]) then SkipSpace(h, p + 1) else p
  }

  // ----- what a match is ----------------------------------------------------------------

  /** Bytes s..e spell the words from the `w`th on, with at least one white space byte between consecutive ones. */
  ghost predicate SpellsFrom(h: string, words: Words, w: nat, s: nat, e: nat)
    requires w < |words|
    decreases |words| - w
  {
    && WordAt(h, words[w], s)
    && var p := s + |words[w]|;
       if w + 1 == |words| then e == p else exists g :: Gap(h, p, g) && SpellsFrom(h, words, w + 1, g, e)
  }

  ghost predicate Spells(h: string, words: Words, s: nat, e: nat) {
    if words == [] then s == e else SpellsFrom(h, words, 0, s, e)
  }

  /** One or more white space bytes, and nothing else, lie in p..g. */
  ghost predicate Gap(h: string, p: nat, g: nat) {
    p < g <= |h| && forall k :: p <= k < g ==> IsSpace(h[k])
  }

  predicate Bounded(h: string, s: nat, e: nat) {
    && (s == 0 || s > |h| || !IsWordByte(h[s - 1]))
    && (e >= |h| || !IsWordByte(h[e]))
  }

  ghost predicate Occurs(h: string, words: Words, s: nat, e: nat) {
    s < |h| && Spells(h, words, s, e) && Bounded(h, s, e)
  }

  // ----- the deterministic reading ---------------------------------------------------------

  /** Where the words from the `w`th on, read greedily from `p`, end. */
  function EndFrom(h: string, words: Words, w: nat, p: nat): (r: Option<nat>)
    requires w < |words|
    ensures r.Some? ==> p + |words[w]| <= r.value <= |h|
    decreases |words| - w
  {
    if !WordAt(h, words[w], p) then None
    else if w + 1 == |words| then Some(p + |words[w]|)
    else
      var g := SkipSpace(h, p + |words[w]|);
      if g == p + |words[w]| then None else EndFrom(h, words, w + 1, g)
  }

  function MatchEnd(h: string, words: Words, p: nat): (r: Option<nat>)
    ensures r.Some? ==> p <= r.value
  {
    if words == [] then Some(p) else EndFrom(h, words, 0, p)
  }

  /** White space is skipped maximally because no word starts with one: the end is unique. */
  lemma {:induction false} SpellsFromIffEndFrom(h: string, words: Words, w: nat, s: nat, e: nat)
    requires Split(words) && w < |words|
    ensures SpellsFrom(h, words, w, s, e) <==> EndFrom(h, words, w, s) == Some(e)
    decreases |words| - w
  {
    if w + 1 < |words| && WordAt(h, words[w], s) {
      var p := s + |words[w]|;
      var g := SkipSpace(h, p);
      SpellsFromIffEndFrom(h, words, w + 1, g, e);
      if SpellsFrom(h, words, w, s, e) {
        var g' :| Gap(h, p, g') && SpellsFrom(h, words, w + 1, g', e);
        SpaceStartsNoWord(h, words[w + 1], g');
        assert g' == g;
      }
      if EndFrom(h, words, w, s) == Some(e) { assert Gap(h, p, g); }
    }
  }

  lemma SpellsIffMatchEnd(h: string, words: Words, s: nat, e: nat)
    requires Split(words)
    ensures Spells(h, words, s, e) <==> MatchEnd(h, words, s) == Some(e)
  {
    if words != [] { SpellsFromIffEndFrom(h, words, 0, s, e); }
  }

  lemma SpaceStartsNoWord(h: string, w: string, p: nat)
    requires w != "" && !IsSpace(w[0]) && WordAt(h, w, p)
    ensures !IsSpace(h[p])
  {
    assert Lower(h[p + 0]) == Lower(w[0]);
  }

  lemma EndUnique(h: string, words: Words, s: nat, e: nat, e': nat)
    requires Split(words) && Occurs(h, words, s, e) && Occurs(h, words, s, e')
    ensures e == e'
  {
    SpellsIffMatchEnd(h, words, s, e);
    SpellsIffMatchEnd(h, words, s, e');
  }

  datatype Span = Span(start: nat, end: nat)

  /** The match anchored at `p`, if any. */
  function MatchAt(h: string, words: Words, p: nat): (r: Option<Span>)
    ensures r.Some? ==> p < |h| && r.value.start == p <= r.value.end
  {
    if p >= |h| then None
    else match MatchEnd(h, words, p)
      case None => None
      case Some(e) => if Bounded(h, p, e) then Some(Span(p, e)) else None
  }

  lemma MatchAtIffOccurs(h: string, words: Words, s: nat, e: nat)
    requires Split(words)
    ensures MatchAt(h, words, s) == Some(Span(s, e)) <==> Occurs(h, words, s, e)
  {
    SpellsIffMatchEnd(h, words, s, e);
  }

  /** The leftmost match at or after `from`. */
  function Find(h: string, words: Words, from: nat): (r: Option<Span>)
    ensures r.Some? ==> from <= r.value.start < |h| && MatchAt(h, words, r.value.start) == r
    ensures r.Some? ==> forall p :: from <= p < r.value.start ==> MatchAt(h, words, p).None?
    ensures r.None? ==> forall p :: from <= p ==> MatchAt(h, words, p).None?
    decreases |h| - from
  {
    if from >= |h| then None
    else if MatchAt(h, words, from).Some? then MatchAt(h, words, from)
    else Find(h, words, from + 1)
  }

  // ----- the matcher -------------------------------------------------------------------------

  /** The greedy reading once `w` words have been read up to `p`. */
  function Rest(h: string, words: Words, w: nat, p: nat): Option<nat>
    requires w <= |words|
  {
    if w == |words| then Some(p)
    else if w == 0 then EndFrom(h, words, 0, p)
    else if SkipSpace(h, p) == p then None
    else EndFrom(h, words, w, SkipSpace(h, p))
  }

  /** Reading one more word. */
  lemma RestStep(h: string, words: Words, w: nat, p: nat)
    requires w < |words|
    ensures var q := if w == 0 then p else SkipSpace(h, p);
            Rest(h, words, w, p) == if (w > 0 && q == p) || !WordAt(h, words[w], q) then None else Rest(h, words, w + 1, q + |words[w]|)
  {
  }

  /** `skip_ws` */
  method SkipWs(h: string, from: nat) returns (p: nat)
    ensures p == SkipSpace(h, from)
  {
    p := from;
    while p < |h| && IsSpace(h[p])
      invariant from <= p && SkipSpace(h, from) == SkipSpace(h, p)
    {
      p := p + 1;
    }
  }

  /** The inner loop of `find_phrase`: the words read from `start`, or nothing. */
  method ReadWords(h: string, words: Words, start: nat) returns (r: Option<nat>)
    ensures r == MatchEnd(h, words, start)
  {
    hide WordAt, SkipSpace, EndFrom;
    var p: nat := start;
    var w: nat := 0;
    ghost var goal := Rest(h, words, 0, start);
    while w < |words|
      invariant w <= |words| && goal == Rest(h, words, w, p)
    {
      RestStep(h, words, w, p);
      if w > 0 {
        var wsStart := p;
        p := SkipWs(h, p);
        if p == wsStart { return None; }
      }
      var word := words[w];
      if !WordAt(h, word, p) { return None; }
      p := p + |word|;
      w := w + 1;
    }
    return Some(p);
  }

  /** `find_phrase` on an already split needle. */
  method FindPhrase(h: string, words: Words, from: nat) returns (r: Option<Span>)
    ensures r == Find(h, words, from)
  {
    hide MatchEnd;
    var at := from;
    while at < |h|
      invariant from <= at && Find(h, words, from) == Find(h, words, at)
    {
      var read := ReadWords(h, words, at);
      if read.Some? {
        var beforeOk := at == 0 || !IsWordByte(h[at - 1]);
        var afterOk := read.value >= |h| || !IsWordByte(h[read.value]);
        if beforeOk && afterOk { return Some(Span(at, read.value)); }
      }
      at := at + 1;
    }
    return None;
  }

  /** Leftmost, word-bounded, and None only if there is no match: in terms of occurrences. */
  lemma FindIsLeftmost(h: string, words: Words, from: nat)
    requires Split(words)
    ensures var r := Find(h, words, from);
            && (r.Some? ==> from <= r.value.start && Occurs(h, words, r.value.start, r.value.end))
            && (r.Some? ==> forall s, e :: from <= s && Occurs(h, words, s, e) ==> r.value.start <= s)
            && (r.None? ==> forall s, e :: from <= s ==> !Occurs(h, words, s, e))
  {
    var r := Find(h, words, from);
    if r.Some? { MatchAtIffOccurs(h, words, r.value.start, r.value.end); }
    forall s, e | from <= s && Occurs(h, words, s, e) ensures r.Some? && r.value.start <= s {
      MatchAtIffOccurs(h, words, s, e);
    }
  }

  // ----- case does not matter ---------------------------------------------------------------------

  ghost predicate SameLetters(h: string, h': string) {
    |h| == |h'| && forall i :: 0 <= i < |h| ==> Lower(h[i]) == Lower(h'[i])
  }

  lemma SameClass(c: char, d: char)
    requires Lower(c) == Lower(d)
    ensures IsSpace(c) == IsSpace(d) && IsWordByte(c) == IsWordByte(d)
  {
  }

  lemma {:induction false} SameSkip(h: string, h': string, p: nat)
    requires SameLetters(h, h')
    ensures SkipSpace(h, p) == SkipSpace(h', p)
    decreases |h| - p
  {
    hide IsSpace, IsWordByte;
    if p < |h| {
      SameClass(h[p], h'[p]);
      SameSkip(h, h', p + 1);
    }
  }

  lemma SameWordAt(h: string, h': string, w: string, p: nat)
    requires SameLetters(h, h')
    ensures WordAt(h, w, p) == WordAt(h', w, p)
  {
  }

  lemma {:induction false} SameEnd(h: string, h': string, words: Words, w: nat, p: nat)
    requires SameLetters(h, h') && w < |words|
    ensures EndFrom(h, words, w, p) == EndFrom(h', words, w, p)
    decreases |words| - w
  {
    hide WordAt, SkipSpace, SameLetters;
    SameWordAt(h, h', words[w], p);
    SameSkip(h, h', p + |words[w]|);
    if w + 1 < |words| { SameEnd(h, h', words, w + 1, SkipSpace(h, p + |words[w]|)); }
  }

  lemma SameMatch(h: string, h': string, words: Words, p: nat)
    requires SameLetters(h, h')
    ensures MatchAt(h, words, p) == MatchAt(h', words, p)
  {
    hide EndFrom, IsWordByte, IsSpace;
    if words != [] { SameEnd(h, h', words, 0, p); }
    var end := MatchEnd(h, words, p);
    if end.Some? && p < |h| {
      if p > 0 { SameClass(h[p - 1], h'[p - 1]); }
      if end.value < |h| { SameClass(h[end.value], h'[end.value]); }
    }
  }

  /** Texts that differ in case only have the same occurrences. */
  lemma {:induction false} CaseIrrelevant(h: string, h': string, words: Words, from: nat)
    requires SameLetters(h, h')
    ensures Find(h, words, from) == Find(h', words, from)
    decreases |h| - from
  {
    hide MatchAt;
    SameMatch(h, h', words, from);
    if from < |h| { CaseIrrelevant(h, h', words, from + 1); }
  }

  // ----- scanning for every occurrence ----------------------------------------------------------

  /** Words made of word bytes only, the first of which does not recur. */
  ghost predicate Keyword(words: Words) {
    && words != []
    && (forall k :: 0 <= k < |words| ==> words[k] != "" && forall j :: 0 <= j < |words[k]| ==> IsWordByte(words[k][j]))
    && (forall k :: 1 <= k < |words| ==> !EqIgnoreCase(words[k], words[0]))
  }

  lemma KeywordSplit(words: Words)
    requires Keyword(words)
    ensures Split(words)
  {
  }

  lemma MatchNonempty(h: string, words: Words, p: nat)
    requires words != [] && words[0] != "" && MatchEnd(h, words, p).Some?
    ensures p < MatchEnd(h, words, p).value
  {
  }

  lemma FindInside(h: string, words: Words, from: nat)
    requires words != [] && Find(h, words, from).Some?
    ensures Find(h, words, from).value.end <= |h|
  {
  }

  /** What the callers' loop `while let Some((s, e)) = find_phrase(.., from) { from = e; .. }` visits. */
  function Scan(h: string, words: Words, from: nat): seq<Span>
    requires words != [] && words[0] != ""
    decreases |h| - from
  {
    match Find(h, words, from)
    case None => []
    case Some(m) =>
      MatchNonempty(h, words, m.start);
      [m] + Scan(h, words, m.end)
  }

  /** The word bytes of `h` under a matched word. */
  lemma WordBytes(h: string, w: string, p: nat, k: nat)
    requires WordAt(h, w, p) && p <= k < p + |w| && forall j :: 0 <= j < |w| ==> IsWordByte(w[j])
    ensures IsWordByte(h[k])
  {
    assert Lower(h[p + (k - p)]) == Lower(w[k - p]);
  }

  /** Byte `p` follows a word byte, is white space, or starts a word from the `w`th on that ends cleanly. */
  ghost predicate CutsAt(h: string, words: Words, w: nat, p: nat, e: nat) {
    || (0 < p <= |h| && IsWordByte(h[p - 1]))
    || (p < |h| && IsSpace(h[p]))
    || (exists j :: w <= j < |words| && StartsWord(h, words[j], p, e))
  }

  ghost predicate StartsWord(h: string, w: string, p: nat, e: nat) {
    WordAt(h, w, p) && (p + |w| == e || (p + |w| < |h| && IsSpace(h[p + |w|])))
  }

  lemma {:induction false} InsideMatch(h: string, words: Words, w: nat, s: nat, p: nat)
    requires Keyword(words) && w < |words|
    requires EndFrom(h, words, w, s).Some? && s <= p < EndFrom(h, words, w, s).value
    ensures CutsAt(h, words, if p > s then w + 1 else w, p, EndFrom(h, words, w, s).value)
    decreases |words| - w
  {
    hide WordAt;
    var e := EndFrom(h, words, w, s).value;
    var q := s + |words[w]|;
    if p == s {
      assert StartsWord(h, words[w], p, e);
    } else if p < q {
      WordBytes(h, words[w], s, p - 1);
    } else if p < SkipSpace(h, q) {
      assert IsSpace(h[p]);
    } else {
      InsideMatch(h, words, w + 1, SkipSpace(h, q), p);
    }
  }

  /** A later word of the phrase does not start the phrase anew. */
  lemma NoRestart(h: string, words: Words, k: nat, p: nat, e: nat)
    requires Keyword(words) && 1 <= k < |words| && StartsWord(h, words[k], p, e) && (e >= |h| || !IsWordByte(h[e]))
    ensures MatchEnd(h, words, p).None?
  {
    if WordAt(h, words[0], p) {
      var a := |words[0]|;
      var b := |words[k]|;
      if a < b {
        WordBytes(h, words[k], p, p + a);
      } else if b < a {
        WordBytes(h, words[0], p, p + b);
      }
    }
  }

  /** Matches of a keyword phrase do not overlap. */
  lemma NoOverlap(h: string, words: Words, m: Span, p: nat)
    requires Keyword(words) && MatchAt(h, words, m.start) == Some(m) && m.start < p < m.end
    ensures MatchAt(h, words, p).None?
  {
    InsideMatch(h, words, 0, m.start, p);
    if p < |h| && IsSpace(h[p]) {
      if WordAt(h, words[0], p) { WordBytes(h, words[0], p, p); }
    } else if exists j :: 1 <= j < |words| && StartsWord(h, words[j], p, m.end) {
      var j :| 1 <= j < |words| && StartsWord(h, words[j], p, m.end);
      NoRestart(h, words, j, p, m.end);
    }
  }

  /** The loop visits every occurrence exactly once, in order. */
  lemma {:induction false} ScanVisitsAll(h: string, words: Words, from: nat)
    requires Keyword(words)
    ensures forall m :: m in Scan(h, words, from) <==> from <= m.start && MatchAt(h, words, m.start) == Some(m)
    ensures forall i, j :: 0 <= i < j < |Scan(h, words, from)| ==> Scan(h, words, from)[i].end <= Scan(h, words, from)[j].start
    decreases |h| - from
  {
    var r := Find(h, words, from);
    if r.Some? {
      var m0 := r.value;
      MatchNonempty(h, words, m0.start);
      ScanVisitsAll(h, words, m0.end);
      var rest := Scan(h, words, m0.end);
      forall m ensures m in Scan(h, words, from) <==> from <= m.start && MatchAt(h, words, m.start) == Some(m) {
        if from <= m.start && MatchAt(h, words, m.start) == Some(m) && m.start < m0.end && m != m0 {
          if m0.start < m.start { NoOverlap(h, words, m0, m.start); }
        }
      }
      forall i, j | 0 <= i < j < |Scan(h, words, from)| ensures Scan(h, words, from)[i].end <= Scan(h, words, from)[j].start {
        assert rest[j - 1] in rest;
        if i > 0 { assert rest[i - 1].end <= rest[j - 1].start; }
      }
    }
  }

  /** The same, in terms of occurrences. */
  lemma ScanEnumeratesOccurrences(h: string, words: Words)
    requires Keyword(words)
    ensures forall s, e :: Occurs(h, words, s, e) <==> Span(s, e) in Scan(h, words, 0)
    ensures forall i, j :: 0 <= i < j < |Scan(h, words, 0)| ==> Scan(h, words, 0)[i].start < Scan(h, words, 0)[j].start
  {
    KeywordSplit(words);
    ScanVisitsAll(h, words, 0);
    forall s, e ensures Occurs(h, words, s, e) <==> Span(s, e) in Scan(h, words, 0) {
      MatchAtIffOccurs(h, words, s, e);
    }
    var ms := Scan(h, words, 0);
    forall i, j | 0 <= i < j < |ms| ensures ms[i].start < ms[j].start {
      assert ms[i] in ms;
      MatchNonempty(h, words, ms[i].start);
    }
  }

  // ----- phrases that exclude each other ---------------------------------------------------------

  /** Two phrases that first differ at a word both have. */
  ghost predicate Apart(ws: Words, vs: Words) {
    exists k :: DifferAt(ws, vs, k)
  }

  ghost predicate DifferAt(ws: Words, vs: Words, k: nat) {
    k < |ws| && k < |vs| && !EqIgnoreCase(ws[k], vs[k]) && forall j :: 0 <= j < k ==> EqIgnoreCase(ws[j], vs[j])
  }

  ghost predicate CleanEnd(h: string, e: nat) { e >= |h| || !IsWordByte(h[e]) }

  lemma EndsCleanly(h: string, words: Words, w: nat, p: nat)
    requires w < |words| && EndFrom(h, words, w, p).Some?
    ensures StartsWord(h, words[w], p, EndFrom(h, words, w, p).value)
  {
    hide WordAt;
  }

  /** What stands at `p` is one word. */
  lemma SameWord(h: string, w: string, v: string, p: nat, e: nat, e': nat)
    requires StartsWord(h, w, p, e) && StartsWord(h, v, p, e') && CleanEnd(h, e) && CleanEnd(h, e')
    requires (forall j :: 0 <= j < |w| ==> IsWordByte(w[j])) && (forall j :: 0 <= j < |v| ==> IsWordByte(v[j]))
    ensures EqIgnoreCase(w, v)
  {
    if |w| < |v| { WordBytes(h, v, p, p + |w|); }
    if |v| < |w| { WordBytes(h, w, p, p + |v|); }
    assert forall j :: 0 <= j < |w| ==> Lower(w[j]) == Lower(h[p + j]);
  }

  lemma EndGoesOn(h: string, words: Words, w: nat, p: nat)
    requires w + 1 < |words| && EndFrom(h, words, w, p).Some?
    ensures EndFrom(h, words, w + 1, SkipSpace(h, p + |words[w]|)) == EndFrom(h, words, w, p)
  {
    hide WordAt;
  }

  lemma SameLength(w: string, v: string)
    requires EqIgnoreCase(w, v)
    ensures |w| == |v|
  {
  }

  lemma {:induction false} SameWordsRead(h: string, ws: Words, vs: Words, j: nat, k: nat, p: nat)
    requires Keyword(ws) && Keyword(vs) && j <= k < |ws| && k < |vs|
    requires EndFrom(h, ws, j, p).Some? && CleanEnd(h, EndFrom(h, ws, j, p).value)
    requires EndFrom(h, vs, j, p).Some? && CleanEnd(h, EndFrom(h, vs, j, p).value)
    requires forall i :: j <= i < k ==> EqIgnoreCase(ws[i], vs[i])
    ensures EqIgnoreCase(ws[k], vs[k])
    decreases k - j
  {
    hide WordAt, SkipSpace, EndFrom, StartsWord, EqIgnoreCase;
    if j == k {
      EndsCleanly(h, ws, j, p);
      EndsCleanly(h, vs, j, p);
      SameWord(h, ws[j], vs[j], p, EndFrom(h, ws, j, p).value, EndFrom(h, vs, j, p).value);
    } else {
      EndGoesOn(h, ws, j, p);
      EndGoesOn(h, vs, j, p);
      SameLength(ws[j], vs[j]);
      SameWordsRead(h, ws, vs, j + 1, k, SkipSpace(h, p + |ws[j]|));
    }
  }

  /** They never occur at the same place. */
  lemma ApartNeverMeet(h: string, ws: Words, vs: Words, s: nat, e: nat, e': nat)
    requires Keyword(ws) && Keyword(vs) && Apart(ws, vs) && Occurs(h, ws, s, e)
    ensures !Occurs(h, vs, s, e')
  {
    KeywordSplit(ws);
    KeywordSplit(vs);
    SpellsIffMatchEnd(h, ws, s, e);
    SpellsIffMatchEnd(h, vs, s, e');
    hide Spells, EndFrom, EqIgnoreCase;
    if Occurs(h, vs, s, e') {
      var k :| DifferAt(ws, vs, k);
      SameWordsRead(h, ws, vs, 0, k, s);
    }
  }

  // ----- identifiers --------------------------------------------------------------------------------

  const QUALIFIERS: seq<Words> := [["IF", "NOT", "EXISTS"], ["IF", "EXISTS"], ["ONLY"]]

  predicate Usable(kws: seq<Words>) {
    forall k :: 0 <= k < |kws| ==> kws[k] != [] && kws[k][0] != ""
  }

  /** End of the first qualifier, from the `k`th on, that matches at `p`. */
  function QualifierEnd(h: string, kws: seq<Words>, k: nat, p: nat): (r: Option<nat>)
    requires Usable(kws) && k <= |kws|
    ensures r.Some? ==> p < r.value
    decreases |kws| - k
  {
    if k == |kws| then None
    else if MatchAt(h, kws[k], p).Some? then
      MatchNonempty(h, kws[k], p);
      Some(MatchAt(h, kws[k], p).value.end)
    else QualifierEnd(h, kws, k + 1, p)
  }

  /** Past white space and any number of qualifiers. */
  function SkipQualifiers(h: string, kws: seq<Words>, p: nat): (q: nat)
    requires Usable(kws)
    ensures p <= q
    decreases |h| - p
  {
    var q := SkipSpace(h, p);
    if q >= |h| then q
    else match QualifierEnd(h, kws, 0, q)
      case None => q
      case Some(e) => SkipQualifiers(h, kws, e)
  }

  lemma {:induction false} QualifierEndExact(h: string, kws: seq<Words>, k: nat, p: nat)
    requires Usable(kws) && k <= |kws|
    ensures QualifierEnd(h, kws, k, p).None? ==> forall j :: k <= j < |kws| ==> MatchAt(h, kws[j], p).None?
    ensures QualifierEnd(h, kws, k, p).Some? ==>
              exists j :: k <= j < |kws| && MatchAt(h, kws[j], p) == Some(Span(p, QualifierEnd(h, kws, k, p).value))
    decreases |kws| - k
  {
    hide MatchAt;
    if k < |kws| && MatchAt(h, kws[k], p).None? { QualifierEndExact(h, kws, k + 1, p); }
  }

  /** Bytes p..q are white space and whole qualifiers, nothing else. */
  ghost predicate OnlyQualifiers(h: string, kws: seq<Words>, p: nat, q: nat)
    decreases q - p
  {
    || p == q
    || (p < q && p < |h| && IsSpace(h[p]) && OnlyQualifiers(h, kws, p + 1, q))
    || (exists k, e: nat :: 0 <= k < |kws| && p < e <= q && MatchAt(h, kws[k], p) == Some(Span(p, e)) && OnlyQualifiers(h, kws, e, q))
  }

  lemma {:induction false} SpacesFirst(h: string, kws: seq<Words>, p: nat, g: nat, q: nat)
    requires p <= g <= q && (p < g ==> g <= |h|) && (forall k :: p <= k < g ==> IsSpace(h[k])) && OnlyQualifiers(h, kws, g, q)
    ensures OnlyQualifiers(h, kws, p, q)
    decreases g - p
  {
    hide MatchAt;
    if p < g { SpacesFirst(h, kws, p + 1, g, q); }
  }

  /** White space and qualifiers are skipped, nothing else, and none is left. */
  lemma {:induction false} SkipsExactlyQualifiers(h: string, kws: seq<Words>, p: nat)
    requires Usable(kws)
    ensures var q := SkipQualifiers(h, kws, p);
            && OnlyQualifiers(h, kws, p, q)
            && (q < |h| ==> !IsSpace(h[q]) && forall k :: 0 <= k < |kws| ==> MatchAt(h, kws[k], q).None?)
    decreases |h| - p
  {
    hide MatchAt, QualifierEnd;
    var g := SkipSpace(h, p);
    if g < |h| {
      QualifierEndExact(h, kws, 0, g);
      var end := QualifierEnd(h, kws, 0, g);
      if end.Some? { SkipsExactlyQualifiers(h, kws, end.value); }
    }
    SpacesFirst(h, kws, p, g, SkipQualifiers(h, kws, p));
  }

  /** End of the run of word bytes at `p`. */
  function WordEnd(h: string, p: nat): (q: nat)
    ensures p <= q && (p <= |h| ==> q <= |h|)
    ensures forall k :: p <= k < q ==> k < |h| && IsWordByte(h[k])
    ensures q < |h| ==> !IsWordByte(h[q])
    decreases |h| - p
  {
    if p < |h| && IsWordByte(h[p]) then WordEnd(h, p + 1) else p
  }

  function LowerAll(s: string): (r: string)
    ensures |r| == |s|
  {
    if s == "" then "" else [Lower(s[0])] + LowerAll(s[1..])
  }

  /** Where the name after `from` begins, past qualifiers and an opening quote. */
  function NameStart(h: string, kws: seq<Words>, from: nat): (a: nat)
    requires Usable(kws)
    ensures from <= a
  {
    var q := SkipQualifiers(h, kws, from);
    if q < |h| && h[q] == '"' then q + 1 else q
  }

  /** The identifier that begins at `a`; of `schema.table`, the last component. */
  function IdentAt(h: string, kws: seq<Words>, a: nat): Option<string>
    requires Usable(kws)
    decreases |h| - a
  {
    var b := WordEnd(h, a);
    if a == b then None
    else
      var rest := if b < |h| && h[b] == '.' then IdentAt(h, kws, NameStart(h, kws, b + 1)) else None;
      if rest.Some? then rest else Some(LowerAll(h[a..b]))
  }

  /** The identifier after `from`. */
  function Ident(h: string, from: nat): Option<string> {
    IdentAt(h, QUALIFIERS, NameStart(h, QUALIFIERS, from))
  }

  /** A word byte stands at `p`: a name begins there. */
  predicate Begins(h: string, p: nat) { p < |h| && IsWordByte(h[p]) }

  /** The component at `a` is followed directly by a dot, and a further component begins after that. */
  predicate GoesOn(h: string, kws: seq<Words>, a: nat)
    requires Usable(kws)
  {
    var b := WordEnd(h, a);
    b < |h| && h[b] == '.' && Begins(h, NameStart(h, kws, b + 1))
  }

  /** The dotted name that begins at `from` has a component at `a`. */
  ghost predicate Chain(h: string, kws: seq<Words>, from: nat, a: nat)
    requires Usable(kws)
    decreases |h| - from
  {
    || a == from
    || (var b := WordEnd(h, from); from < b < |h| && h[b] == '.' && Chain(h, kws, NameStart(h, kws, b + 1), a))
  }

  /** Bytes a..b are a maximal run of word bytes, and no further component follows. */
  ghost predicate LastComponent(h: string, kws: seq<Words>, a: nat, b: nat)
    requires Usable(kws)
  {
    a < b == WordEnd(h, a) && !GoesOn(h, kws, a)
  }

  lemma IdentNoneIff(h: string, kws: seq<Words>, a: nat)
    requires Usable(kws)
    ensures IdentAt(h, kws, a).None? <==> !Begins(h, a)
  {
    hide NameStart;
  }

  /** A name is found if and only if word bytes follow, and it is the last component of the dotted name
      that begins there, in lower case. */
  lemma IdentIsLastComponent(h: string, kws: seq<Words>, from: nat, t: string)
    requires Usable(kws)
    ensures IdentAt(h, kws, from) == Some(t) <==>
              exists a: nat, b: nat :: Chain(h, kws, from, a) && LastComponent(h, kws, a, b) && t == LowerAll(h[a..b])
  {
    hide NameStart;
    if IdentAt(h, kws, from) == Some(t) { var a, b := FindLast(h, kws, from); }
    if a: nat, b: nat :| Chain(h, kws, from, a) && LastComponent(h, kws, a, b) && t == LowerAll(h[a..b]) {
      LastIsFound(h, kws, from, a, b);
    }
  }

  lemma {:induction false} FindLast(h: string, kws: seq<Words>, from: nat) returns (a: nat, b: nat)
    requires Usable(kws) && IdentAt(h, kws, from).Some?
    ensures Chain(h, kws, from, a) && LastComponent(h, kws, a, b) && IdentAt(h, kws, from) == Some(LowerAll(h[a..b]))
    decreases |h| - from
  {
    hide NameStart;
    a, b := from, WordEnd(h, from);
    if b < |h| && h[b] == '.' { IdentNoneIff(h, kws, NameStart(h, kws, b + 1)); }
    if GoesOn(h, kws, from) { a, b := FindLast(h, kws, NameStart(h, kws, b + 1)); }
  }

  lemma {:induction false} LastIsFound(h: string, kws: seq<Words>, from: nat, a: nat, b: nat)
    requires Usable(kws) && Chain(h, kws, from, a) && LastComponent(h, kws, a, b)
    ensures Begins(h, from) && IdentAt(h, kws, from) == Some(LowerAll(h[a..b]))
    ensures a == from <==> !GoesOn(h, kws, from)
    decreases |h| - from
  {
    hide NameStart;
    var e := WordEnd(h, from);
    if e < |h| && h[e] == '.' { IdentNoneIff(h, kws, NameStart(h, kws, e + 1)); }
    if a != from { LastIsFound(h, kws, NameStart(h, kws, e + 1), a, b); }
  }
  /** The first component is dropped if and only if a dot follows its last byte directly and a further name begins after it. */
  lemma FirstComponentDroppedIff(h: string, kws: seq<Words>, from: nat)
    requires Usable(kws) && Begins(h, from)
    ensures exists a: nat, b: nat :: Chain(h, kws, from, a) && LastComponent(h, kws, a, b)
    ensures forall a: nat, b: nat :: Chain(h, kws, from, a) && LastComponent(h, kws, a, b) ==> (a != from <==> GoesOn(h, kws, from))
  {
    hide NameStart;
    IdentNoneIff(h, kws, from);
    var a, b := FindLast(h, kws, from);
    forall a: nat, b: nat | Chain(h, kws, from, a) && LastComponent(h, kws, a, b) ensures a != from <==> GoesOn(h, kws, from) {
      LastIsFound(h, kws, from, a, b);
    }
  }

  /** The same for the whole call: qualifiers and an opening quote are skipped first. */
  lemma IdentExact(h: string, from: nat, t: string)
    ensures var start := NameStart(h, QUALIFIERS, from);
            Ident(h, from) == Some(t) <==>
              exists a: nat, b: nat :: Chain(h, QUALIFIERS, start, a) && LastComponent(h, QUALIFIERS, a, b) && t == LowerAll(h[a..b])
  {
    hide NameStart;
    IdentIsLastComponent(h, QUALIFIERS, NameStart(h, QUALIFIERS, from), t);
  }

  // ----- what is skipped before a name ------------------------------------------------------------------

  lemma QualifierPhrases()
    ensures Keyword(["IF", "NOT", "EXISTS"]) && Keyword(["IF", "EXISTS"]) && Keyword(["ONLY"])
    ensures Apart(["IF", "NOT", "EXISTS"], ["IF", "EXISTS"]) && Apart(["IF", "NOT", "EXISTS"], ["ONLY"]) && Apart(["IF", "EXISTS"], ["ONLY"])
  {
    assert DifferAt(["IF", "NOT", "EXISTS"], ["IF", "EXISTS"], 1);
    assert DifferAt(["IF", "NOT", "EXISTS"], ["ONLY"], 0) && DifferAt(["IF", "EXISTS"], ["ONLY"], 0);
  }

  /** IF NOT EXISTS, IF EXISTS or ONLY stands at `p` and ends at `e`. */
  ghost predicate QualifierAt(h: string, p: nat, e: nat) {
    Occurs(h, ["IF", "NOT", "EXISTS"], p, e) || Occurs(h, ["IF", "EXISTS"], p, e) || Occurs(h, ["ONLY"], p, e)
  }

  lemma NoneOccurs(h: string, words: Words, p: nat)
    requires Keyword(words) && MatchAt(h, words, p).None?
    ensures forall e: nat :: !Occurs(h, words, p, e)
  {
    KeywordSplit(words);
    forall e: nat ensures !Occurs(h, words, p, e) { MatchAtIffOccurs(h, words, p, e); }
  }

  /** One pass over the qualifiers finds the one that stands there. */
  lemma QualifierEndIs(h: string, p: nat, e: nat)
    ensures QualifierEnd(h, QUALIFIERS, 0, p) == Some(e) <==> QualifierAt(h, p, e)
  {
    QualifierPhrases();
    var a, b, c := ["IF", "NOT", "EXISTS"], ["IF", "EXISTS"], ["ONLY"];
    KeywordSplit(a);
    KeywordSplit(b);
    KeywordSplit(c);
    hide Keyword, Split, Apart, Occurs, MatchAt;
    MatchAtIffOccurs(h, a, p, e);
    MatchAtIffOccurs(h, b, p, e);
    MatchAtIffOccurs(h, c, p, e);
    assert QualifierEnd(h, QUALIFIERS, 3, p) == None;
    assert QUALIFIERS[2] == c && QUALIFIERS[1] == b && QUALIFIERS[0] == a;
    if MatchAt(h, a, p).Some? {
      var e' := MatchAt(h, a, p).value.end;
      MatchAtIffOccurs(h, a, p, e');
      ApartNeverMeet(h, a, b, p, e', e);
      ApartNeverMeet(h, a, c, p, e', e);
    } else if MatchAt(h, b, p).Some? {
      var e' := MatchAt(h, b, p).value.end;
      MatchAtIffOccurs(h, b, p, e');
      ApartNeverMeet(h, b, c, p, e', e);
    }
  }

  /** Past a white space byte, or past a qualifier, the name is the same; where neither stands, it begins, perhaps
      behind an opening quote. */
  lemma NameAfterQualifiers(h: string, p: nat)
    requires p < |h|
    ensures IsSpace(h[p]) ==> Ident(h, p) == Ident(h, p + 1)
    ensures !IsSpace(h[p]) ==> forall e: nat :: QualifierAt(h, p, e) ==> Ident(h, p) == Ident(h, e)
    ensures !IsSpace(h[p]) && (forall e: nat :: !QualifierAt(h, p, e)) ==>
              Ident(h, p) == IdentAt(h, QUALIFIERS, if h[p] == '"' then p + 1 else p)
  {
    hide QualifierEnd, QualifierAt, IdentAt;
    if IsSpace(h[p]) {
      assert SkipSpace(h, p) == SkipSpace(h, p + 1);
    } else {
      assert SkipSpace(h, p) == p;
      forall e: nat ensures QualifierEnd(h, QUALIFIERS, 0, p) == Some(e) <==> QualifierAt(h, p, e) { QualifierEndIs(h, p, e); }
      var end := QualifierEnd(h, QUALIFIERS, 0, p);
      if end.Some? { assert QualifierAt(h, p, end.value); }
    }
  }

  /** A double quote is neither white space nor the start of a qualifier. */
  lemma QuoteStartsName(h: string, from: nat)
    requires from < |h| && h[from] == '"'
    ensures NameStart(h, QUALIFIERS, from) == from + 1
  {
    assert SkipSpace(h, from) == from;
    forall k | 0 <= k < |QUALIFIERS| ensures !WordAt(h, QUALIFIERS[k][0], from) {
      assert Lower(QUALIFIERS[k][0][0]) != '"';
    }
    NoQualifier(h, QUALIFIERS, 0, from);
  }

  lemma {:induction false} NoQualifier(h: string, kws: seq<Words>, k: nat, p: nat)
    requires Usable(kws) && k <= |kws| && forall j :: 0 <= j < |kws| ==> !WordAt(h, kws[j][0], p)
    ensures QualifierEnd(h, kws, k, p) == None
    decreases |kws| - k
  {
    hide WordAt;
    if k < |kws| { NoQualifier(h, kws, k + 1, p); }
  }

  /** Of a quoted `"schema"."table"` the schema is taken: the closing quote stands where the dot would have to. */
  lemma QuotedSchemaIsTaken(h: string, from: nat, b: nat)
    requires from + 1 < b < |h| && h[from] == '"' == h[b] && forall k :: from < k < b ==> IsWordByte(h[k])
    ensures Ident(h, from) == Some(LowerAll(h[from + 1..b]))
  {
    QuoteStartsName(h, from);
    assert WordEnd(h, from + 1) == b;
    assert IdentAt(h, QUALIFIERS, from + 1) == Some(LowerAll(h[from + 1..b])) by { hide NameStart; }
  }

  lemma QuotedSchemaExample()
    ensures Ident("\"s\".\"t\"", 0) == Some("s")
  {
    var h := "\"s\".\"t\"";
    QuotedSchemaIsTaken(h, 0, 2);
    assert h[1..2] == "s" && LowerAll("s") == "s";
  }

  /** A run of white space has been skipped. */
  lemma SkipSpaceStays(h: string, p: nat)
    requires p >= |h| || !IsSpace(h[p])
    ensures SkipSpace(h, p) == p
  {
  }

  /** One pass over the qualifiers at `p`. */
  method PastQualifier(h: string, kws: seq<Words>, p: nat) returns (r: Option<nat>)
    requires Usable(kws)
    ensures r == QualifierEnd(h, kws, 0, p)
  {
    var k: nat := 0;
    while k < |kws|
      invariant k <= |kws| && QualifierEnd(h, kws, 0, p) == QualifierEnd(h, kws, k, p)
    {
      var m := FindPhrase(h, kws[k], p);
      if m.Some? && m.value.start == p { return Some(m.value.end); }
      k := k + 1;
    }
    return None;
  }

  /** The qualifier loop of `identifier_after`. */
  method PastQualifiers(h: string, kws: seq<Words>, from: nat) returns (p: nat)
    requires Usable(kws)
    ensures p == SkipQualifiers(h, kws, from)
  {
    p := SkipWs(h, from);
    SkipSpaceStays(h, p);
    while p < |h|
      invariant SkipSpace(h, p) == p && SkipQualifiers(h, kws, from) == SkipQualifiers(h, kws, p)
      decreases |h| - p
    {
      var end := PastQualifier(h, kws, p);
      if end.None? { return; }
      p := SkipWs(h, end.value);
      SkipSpaceStays(h, p);
    }
  }

  method NameBegins(h: string, kws: seq<Words>, from: nat) returns (a: nat)
    requires Usable(kws)
    ensures a == NameStart(h, kws, from)
  {
    a := PastQualifiers(h, kws, from);
    if a < |h| && h[a] == '"' { a := a + 1; }
  }

  method ReadWord(h: string, start: nat) returns (p: nat)
    ensures p == WordEnd(h, start)
  {
    p := start;
    while p < |h| && IsWordByte(h[p])
      invariant start <= p && WordEnd(h, start) == WordEnd(h, p)
    {
      p := p + 1;
    }
  }

  method ReadIdent(h: string, kws: seq<Words>, start: nat) returns (r: Option<string>)
    requires Usable(kws)
    ensures r == IdentAt(h, kws, start)
    decreases |h| - start
  {
    hide NameStart;
    var p := ReadWord(h, start);
    if p == start { return None; }
    var first := LowerAll(h[start..p]);
    var rest := None;
    if p < |h| && h[p] == '.' {
      var next := NameBegins(h, kws, p + 1);
      rest := ReadIdent(h, kws, next);
    }
    r := if rest.Some? then rest else Some(first);
  }

  /** `identifier_after` */
  method IdentifierAfter(h: string, from: nat) returns (r: Option<string>)
    ensures r == Ident(h, from)
  {
    var start := NameBegins(h, QUALIFIERS, from);
    r := ReadIdent(h, QUALIFIERS, start);
  }
}
