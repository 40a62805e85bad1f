/** Dollar-quoted bodies (section 4.1.2.4 of the PostgreSQL manual) as the scanner finds them. */
module DollarQuotes {
  import opened Prelude
  import opened Phrases
  import opened Utf8

  // ----- substring search ---------------------------------------------------------------

  predicate SubAt(h: string, sub: string, k: nat) {
    k + |sub| <= |h| && h[k..k + |sub|] == sub
  }

  /** Leftmost occurrence of `sub` at or after `k`. */
  function FindSub(h: string, sub: string, k: nat): (r: Option<nat>)
    ensures r.Some? ==> k <= r.value && SubAt(h, sub, r.value) && forall j :: k <= j < r.value ==> !SubAt(h, sub, j)
    ensures r.None? ==> forall j :: k <= j ==> !SubAt(h, sub, j)
    decreases |h| - k
  {
    if SubAt(h, sub, k) then Some(k) else if k >= |h| then None else FindSub(h, sub, k + 1)
  }

  // ----- spans -------------------------------------------------------------------------

  /** What stands at some byte. */
  datatype Opening = NoTag | Unclosed | Closed(end: nat)

  /** Length of the tag `$word$` at `i`, or 0. */
  function TagLength(h: string, i: nat): (n: nat)
    ensures n > 0 ==> 2 <= n && i + n <= |h| && h[i] == '$' == h[i + n - 1]
  {
    if i >= |h| || h[i] != '$' then 0
    else
      var j := WordEnd(h, i + 1);
      if j < |h| && h[j] == '$' then j + 1 - i else 0
  }

  /** The body after an opening tag runs to the next occurrence of the same tag. */
  function Closing(h: string, tag: string, from: nat): (r: Opening)
    ensures !r.NoTag? && (r.Closed? ==> from + |tag| <= r.end <= |h|)
  {
    match FindSub(h, tag, from)
    case None => Unclosed
    case Some(k) => Closed(k + |tag|)
  }

  function OpeningAt(h: string, i: nat): (r: Opening)
    ensures r.Closed? ==> i < r.end <= |h| && h[i] == '$'
    ensures r.Unclosed? ==> i < |h| && h[i] == '$'
  {
    var n := TagLength(h, i);
    if n == 0 then NoTag else Closing(h, h[i..i + n], i + n)
  }

  /** The spans from byte `i` on; an unclosed tag ends the search. */
  function Spans(h: string, i: nat): seq<Span>
    decreases |h| - i
  {
    if i >= |h| then []
    else match OpeningAt(h, i)
      case NoTag => Spans(h, i + 1)
      case Unclosed => []
      case Closed(e) => [Span(i, e)] + Spans(h, e)
  }

  /** The tag at byte `i` and where its body ends: the inner part of `dollar_spans`. */
  method ReadOpening(masked: string, i: nat) returns (r: Opening)
    requires i < |masked| && masked[i] == '$'
    ensures r == OpeningAt(masked, i)
  {
    var j := ReadWord(masked, i + 1);
    if j >= |masked| || masked[j] != '$' { return NoTag; }
    var tag := masked[i..j + 1];
    var found := FindSub(masked, tag, j + 1);
    r := if found.None? then Unclosed else Closed(found.value + |tag|);
  }

  /** `dollar_spans` */
  method DollarSpans(masked: string) returns (out: seq<Span>)
    ensures out == Spans(masked, 0)
  {
    out := [];
    var i: nat := 0;
    while i < |masked|
      invariant out + Spans(masked, i) == Spans(masked, 0)
      decreases |masked| - i
    {
      if masked[i] != '$' {
        i := i + 1;
        continue;
      }
      var opening := ReadOpening(masked, i);
      match opening
      case NoTag => i := i + 1;
      case Unclosed => break;
      case Closed(e) =>
        out := out + [Span(i, e)];
        i := e;
    }
  }

  /** A span: a tag, a body, and the first repetition of the tag. */
  ghost predicate IsQuoted(h: string, m: Span) {
    && var n := TagLength(h, m.start);
       && n > 0 && m.start + 2 * n <= m.end <= |h|
       && Closing(h, h[m.start..m.start + n], m.start + n) == Closed(m.end)
  }

  /** Spans follow one another from `i` on, each quoted by one and the same tag. */
  ghost predicate WellSpaced(h: string, ms: seq<Span>, i: nat)
    decreases |ms|
  {
    ms == [] || (i <= ms[0].start && IsQuoted(h, ms[0]) && WellSpaced(h, ms[1..], ms[0].end))
  }

  /** The spans of a text are in bounds, ordered and disjoint, and close with the tag they open with. */
  lemma {:induction false} SpansWellSpaced(h: string, i: nat)
    ensures WellSpaced(h, Spans(h, i), i)
    decreases |h| - i
  {
    if i < |h| {
      match OpeningAt(h, i)
      case NoTag =>
        SpansWellSpaced(h, i + 1);
        SpacedEarlier(h, Spans(h, i + 1), i + 1, i);
      case Unclosed =>
      case Closed(e) =>
        SpansWellSpaced(h, e);
        assert ([Span(i, e)] + Spans(h, e))[1..] == Spans(h, e);
    }
  }

  lemma SpacedEarlier(h: string, ms: seq<Span>, i: nat, i': nat)
    requires WellSpaced(h, ms, i) && i' <= i
    ensures WellSpaced(h, ms, i')
  {
  }

  /** Pairwise: an earlier span ends before a later one starts. */
  lemma {:induction false} SpacedPairwise(h: string, ms: seq<Span>, i: nat, j: nat, k: nat)
    requires WellSpaced(h, ms, i) && j < k < |ms|
    ensures i <= ms[j].start < ms[j].end <= ms[k].start < ms[k].end <= |h|
    decreases |ms|
  {
    hide Closing, TagLength;
    SpacedMember(h, ms[1..], ms[0].end, k - 1);
    if j > 0 { SpacedPairwise(h, ms[1..], ms[0].end, j - 1, k - 1); }
  }

  lemma {:induction false} SpacedMember(h: string, ms: seq<Span>, i: nat, k: nat)
    requires WellSpaced(h, ms, i) && k < |ms|
    ensures i <= ms[k].start < ms[k].end <= |h| && IsQuoted(h, ms[k])
    decreases |ms|
  {
    if k > 0 { SpacedMember(h, ms[1..], ms[0].end, k - 1); }
  }

  // ----- top-level statements ----------------------------------------------------------------

  predicate Inside(ms: seq<Span>, idx: nat) {
    exists k :: 0 <= k < |ms| && ms[k].start <= idx < ms[k].end
  }

  function Filled(h: string, a: nat, b: nat): nat
    requires a <= b <= |h|
  {
    if IsBlank(h[a..b]) then 0 else 1
  }

  /** The statements left from byte `i` on, the current one having begun at `last`. */
  function CountFrom(h: string, ms: seq<Span>, last: nat, i: nat): nat
    requires last <= i <= |h|
    decreases |h| - i
  {
    if i == |h| then Filled(h, last, i)
    else if h[i] == ';' && !Inside(ms, i) then Filled(h, last, i) + CountFrom(h, ms, i + 1, i + 1)
    else CountFrom(h, ms, last, i + 1)
  }

  function TopLevelCount(h: string): nat { CountFrom(h, Spans(h, 0), 0, 0) }

  /** `top_level_statement_count` */
  method TopLevelStatementCount(masked: string) returns (count: nat)
    ensures count == TopLevelCount(masked)
  {
    var spans := DollarSpans(masked);
    count := 0;
    var lastEnd: nat := 0;
    for idx := 0 to |masked|
      invariant lastEnd <= idx && count + CountFrom(masked, spans, lastEnd, idx) == CountFrom(masked, spans, 0, 0)
    {
      if masked[idx] != ';' || Inside(spans, idx) { continue; }
      if !IsBlank(masked[lastEnd..idx]) { count := count + 1; }
      lastEnd := idx + 1;
    }
    assert masked[lastEnd..|masked|] == masked[lastEnd..];
    if !IsBlank(masked[lastEnd..]) { count := count + 1; }
  }

  // ----- the same count, walking over the bodies ------------------------------------------------

  /** Like CountFrom, but jumping over each body; `quoting` ends at an unclosed tag. */
  function Walk(h: string, last: nat, i: nat, quoting: bool): nat
    requires last <= i <= |h|
    decreases |h| - i, quoting
  {
    if i == |h| then Filled(h, last, i)
    else if quoting && OpeningAt(h, i).Closed? then Walk(h, last, OpeningAt(h, i).end, true)
    else if quoting && OpeningAt(h, i).Unclosed? then Walk(h, last, i, false)
    else if h[i] == ';' then Filled(h, last, i) + Walk(h, i + 1, i + 1, quoting)
    else Walk(h, last, i + 1, quoting)
  }

  ghost predicate EndBy(ms: seq<Span>, i: nat) {
    forall k :: 0 <= k < |ms| ==> ms[k].end <= i
  }

  ghost predicate StartFrom(ms: seq<Span>, i: nat) {
    forall k :: 0 <= k < |ms| ==> i <= ms[k].start
  }

  lemma SpansStartFrom(h: string, i: nat)
    ensures StartFrom(Spans(h, i), i)
  {
    SpansWellSpaced(h, i);
    forall k | 0 <= k < |Spans(h, i)| ensures i <= Spans(h, i)[k].start { SpacedMember(h, Spans(h, i), i, k); }
  }

  lemma NotInside(done: seq<Span>, rest: seq<Span>, i: nat)
    requires EndBy(done, i) && StartFrom(rest, i + 1)
    ensures !Inside(done + rest, i)
  {
  }

  /** Bytes inside a span do not count. */
  lemma {:induction false} JumpOver(h: string, ms: seq<Span>, last: nat, i: nat, m: Span)
    requires last <= i <= m.end <= |h| && m in ms && m.start <= i
    ensures CountFrom(h, ms, last, i) == CountFrom(h, ms, last, m.end)
    decreases m.end - i
  {
    if i < m.end {
      assert Inside(ms, i);
      JumpOver(h, ms, last, i + 1, m);
    }
  }

  lemma {:induction false} PlainTail(h: string, ms: seq<Span>, last: nat, i: nat)
    requires last <= i <= |h| && EndBy(ms, i)
    ensures CountFrom(h, ms, last, i) == Walk(h, last, i, false)
    decreases |h| - i
  {
    if i < |h| {
      assert !Inside(ms, i);
      if h[i] == ';' { PlainTail(h, ms, i + 1, i + 1); } else { PlainTail(h, ms, last, i + 1); }
    }
  }

  lemma {:induction false} CountIsWalk(h: string, done: seq<Span>, last: nat, i: nat)
    requires last <= i <= |h| && EndBy(done, i)
    ensures CountFrom(h, done + Spans(h, i), last, i) == Walk(h, last, i, true)
    decreases |h| - i
  {
    if i < |h| {
      match OpeningAt(h, i)
      case NoTag =>
        SpansStartFrom(h, i + 1);
        NotInside(done, Spans(h, i + 1), i);
        if h[i] == ';' { CountIsWalk(h, done, i + 1, i + 1); } else { CountIsWalk(h, done, last, i + 1); }
      case Unclosed =>
        assert done + Spans(h, i) == done;
        PlainTail(h, done, last, i);
      case Closed(e) =>
        var m := Span(i, e);
        assert (done + [m]) + Spans(h, e) == done + Spans(h, i);
        CountIsWalk(h, done + [m], last, e);
        JumpOver(h, done + Spans(h, i), last, i, m);
    } else {
      assert Spans(h, i) == [];
    }
  }

  // ----- what a body says does not matter -----------------------------------------------------------

  /** The same bytes from `i` in `h` and from `i'` in `h'`. */
  ghost predicate SameSuffix(h: string, i: nat, h': string, i': nat) {
    i <= |h| && i' <= |h'| && |h| - i == |h'| - i' && forall k :: i <= k < |h| ==> h[k] == h'[k - i + i']
  }

  lemma SuffixLater(h: string, i: nat, h': string, i': nat, d: nat)
    requires SameSuffix(h, i, h', i') && i + d <= |h|
    ensures SameSuffix(h, i + d, h', i' + d)
  {
  }

  lemma {:induction false} WordEndShift(h: string, i: nat, h': string, i': nat)
    requires SameSuffix(h, i, h', i')
    ensures WordEnd(h, i) - i == WordEnd(h', i') - i'
    decreases |h| - i
  {
    if i < |h| {
      assert h[i] == h'[i'];
      SuffixLater(h, i, h', i', 1);
      WordEndShift(h, i + 1, h', i' + 1);
    }
  }

  lemma {:induction false} FindShift(h: string, i: nat, h': string, i': nat, sub: string)
    requires SameSuffix(h, i, h', i')
    ensures FindSub(h, sub, i).Some? <==> FindSub(h', sub, i').Some?
    ensures FindSub(h, sub, i).Some? ==> FindSub(h, sub, i).value - i == FindSub(h', sub, i').value - i'
    decreases |h| - i
  {
    assert SubAt(h, sub, i) <==> SubAt(h', sub, i') by {
      if i + |sub| <= |h| {
        forall j | 0 <= j < |sub| ensures h[i + j] == sub[j] <==> h'[i' + j] == sub[j] { assert h[i + j] == h'[i + j - i + i']; }
      }
    }
    if i < |h| {
      SuffixLater(h, i, h', i', 1);
      FindShift(h, i + 1, h', i' + 1, sub);
    }
  }

  lemma ClosingShift(h: string, i: nat, h': string, i': nat, tag: string)
    requires SameSuffix(h, i, h', i')
    ensures Closing(h, tag, i).Closed? <==> Closing(h', tag, i').Closed?
    ensures Closing(h, tag, i).Closed? ==> Closing(h, tag, i).end - i == Closing(h', tag, i').end - i'
  {
    FindShift(h, i, h', i', tag);
  }

  lemma SliceShift(h: string, i: nat, h': string, i': nat, n: nat)
    requires SameSuffix(h, i, h', i') && i + n <= |h|
    ensures h[i..i + n] == h'[i'..i' + n]
  {
    var a, b := h[i..i + n], h'[i'..i' + n];
    forall k | 0 <= k < |a| ensures a[k] == b[k] { assert h[i + k] == h'[i + k - i + i']; }
  }

  lemma TagShift(h: string, i: nat, h': string, i': nat)
    requires SameSuffix(h, i, h', i')
    ensures TagLength(h, i) == TagLength(h', i')
  {
    if i < |h| {
      assert h[i] == h'[i'];
      SuffixLater(h, i, h', i', 1);
      WordEndShift(h, i + 1, h', i' + 1);
      var j := WordEnd(h, i + 1);
      assert j < |h| ==> h[j] == h'[j - i + i'];
    }
  }

  lemma OpeningShift(h: string, i: nat, h': string, i': nat)
    requires SameSuffix(h, i, h', i')
    ensures OpeningAt(h, i).NoTag? <==> OpeningAt(h', i').NoTag?
    ensures OpeningAt(h, i).Closed? <==> OpeningAt(h', i').Closed?
    ensures OpeningAt(h, i).Closed? ==> OpeningAt(h, i).end - i == OpeningAt(h', i').end - i'
  {
    hide TagLength, Closing;
    TagShift(h, i, h', i');
    var n := TagLength(h, i);
    if n > 0 {
      SliceShift(h, i, h', i', n);
      SuffixLater(h, i, h', i', n);
      ClosingShift(h, i + n, h', i' + n, h[i..i + n]);
    }
  }

  /** The statement begun at `last` is filled either way: it starts after the change, or holds a dollar sign. */
  ghost predicate SameStatement(h: string, last: nat, h': string, last': nat, from: nat, from': nat, dollar: nat) {
    || (from <= last && from' <= last' && last - from == last' - from')
    || (last <= dollar < from && last' <= dollar < from' && dollar < |h| && dollar < |h'| && h[dollar] == '$' == h'[dollar])
  }

  lemma FilledEither(h: string, last: nat, i: nat, h': string, last': nat, i': nat, from: nat, from': nat, dollar: nat)
    requires SameSuffix(h, from, h', from') && SameStatement(h, last, h', last', from, from', dollar)
    requires from <= i <= |h| && from' <= i' <= |h'| && i - from == i' - from' && last <= i && last' <= i'
    ensures Filled(h, last, i) == Filled(h', last', i')
  {
    if from <= last && from' <= last' && last - from == last' - from' {
      assert h[last..i] == h'[last'..i'] by {
        forall k | 0 <= k < |h[last..i]| ensures h[last..i][k] == h'[last'..i'][k] {
          assert h[last + k] == h'[last + k - from + from'];
        }
      }
    } else {
      assert h[last..i][dollar - last] == '$' && h'[last'..i'][dollar - last'] == '$';
      DollarNotBlank(h[last..i], 0, dollar - last);
      DollarNotBlank(h'[last'..i'], 0, dollar - last');
    }
  }

  lemma {:induction false} SameWalkAfter(h: string, last: nat, i: nat, h': string, last': nat, i': nat, q: bool, from: nat, from': nat, dollar: nat)
    requires SameSuffix(h, from, h', from') && SameStatement(h, last, h', last', from, from', dollar)
    requires from <= i <= |h| && from' <= i' <= |h'| && i - from == i' - from' && last <= i && last' <= i'
    ensures Walk(h, last, i, q) == Walk(h', last', i', q)
    decreases |h| - i, q
  {
    hide OpeningAt, Filled;
    FilledEither(h, last, i, h', last', i', from, from', dollar);
    if i < |h| {
      SuffixLater(h, from, h', from', i - from);
      assert h[i] == h'[i'];
      OpeningShift(h, i, h', i');
      if q && OpeningAt(h, i).Closed? {
        SameWalkAfter(h, last, OpeningAt(h, i).end, h', last', OpeningAt(h', i').end, true, from, from', dollar);
      } else if q && OpeningAt(h, i).Unclosed? {
        SameWalkAfter(h, last, i, h', last', i', false, from, from', dollar);
      } else if h[i] == ';' {
        SameWalkAfter(h, i + 1, i + 1, h', i' + 1, i' + 1, q, from, from', dollar);
      } else {
        SameWalkAfter(h, last, i + 1, h', last', i' + 1, q, from, from', dollar);
      }
    }
  }

  /** The same bytes up to and including byte `s`. */
  ghost predicate SamePrefix(h: string, h': string, s: nat) {
    s < |h| && s < |h'| && forall k :: 0 <= k <= s ==> h[k] == h'[k]
  }

  /** A scan that will come to a dollar sign at `s` decides everything before it from the bytes before it. */
  lemma OpeningBefore(h: string, h': string, i: nat, s: nat)
    requires SamePrefix(h, h', s) && h[s] == '$' && i < s
    requires OpeningAt(h, i).Closed? ==> OpeningAt(h, i).end <= s
    requires !OpeningAt(h, i).Unclosed?
    ensures OpeningAt(h', i) == OpeningAt(h, i)
  {
    hide Closing;
    if h[i] == '$' {
      var j := WordEnd(h, i + 1);
      assert j <= s;
      assert WordEnd(h', i + 1) == j;
      var n := TagLength(h, i);
      assert TagLength(h', i) == n;
      if n > 0 {
        assert h[i..i + n] == h'[i..i + n];
        ClosingBefore(h, h', h[i..i + n], i + n, s);
      }
    }
  }

  lemma ClosingBefore(h: string, h': string, tag: string, k: nat, s: nat)
    requires SamePrefix(h, h', s) && Closing(h, tag, k).Closed? && Closing(h, tag, k).end <= s
    ensures Closing(h', tag, k) == Closing(h, tag, k)
  {
    var r := FindSub(h, tag, k).value;
    assert h[r..r + |tag|] == h'[r..r + |tag|];
    forall j | k <= j < r ensures !SubAt(h', tag, j) {
      assert !SubAt(h, tag, j);
      assert h[j..j + |tag|] == h'[j..j + |tag|];
    }
    assert SubAt(h', tag, r);
    assert FindSub(h', tag, k) == Some(r);
  }

  /** A scan at `i` on its way to the span `m`. */
  lemma OnTheWay(h: string, i: nat, m: Span)
    requires m in Spans(h, i)
    ensures i <= m.start < |h| && h[m.start] == '$'
    ensures i < m.start ==> !OpeningAt(h, i).Unclosed?
    ensures i < m.start && OpeningAt(h, i).NoTag? ==> m in Spans(h, i + 1)
    ensures i < m.start && OpeningAt(h, i).Closed? ==> OpeningAt(h, i).end <= m.start && m in Spans(h, OpeningAt(h, i).end)
  {
    SpansWellSpaced(h, i);
    var at :| 0 <= at < |Spans(h, i)| && Spans(h, i)[at] == m;
    SpacedMember(h, Spans(h, i), i, at);
    if i < m.start && OpeningAt(h, i).Closed? {
      SpansStartFrom(h, OpeningAt(h, i).end);
      assert m in Spans(h, OpeningAt(h, i).end);
    }
  }

  /** At the span itself both scans jump to where the texts agree again. */
  lemma WalkAtSpan(h: string, h': string, last: nat, m: Span, e': nat)
    requires SamePrefix(h, h', m.start) && SameSuffix(h, m.end, h', e') && last <= m.start
    requires OpeningAt(h, m.start) == Closed(m.end) && OpeningAt(h', m.start) == Closed(e')
    ensures Walk(h, last, m.start, true) == Walk(h', last, m.start, true)
  {
    SameWalkAfter(h, last, m.end, h', last, e', true, m.end, e', m.start);
  }

  /** One plain byte, in either text. */
  lemma WalkByte(h: string, last: nat, i: nat)
    requires last <= i < |h| && OpeningAt(h, i).NoTag?
    ensures Walk(h, last, i, true) == if h[i] == ';' then Filled(h, last, i) + Walk(h, i + 1, i + 1, true) else Walk(h, last, i + 1, true)
  {
  }

  lemma {:induction false} SameWalkBefore(h: string, h': string, last: nat, i: nat, m: Span, e': nat)
    requires SamePrefix(h, h', m.start) && SameSuffix(h, m.end, h', e') && last <= i <= m.start && m in Spans(h, i)
    requires OpeningAt(h, m.start) == Closed(m.end) && OpeningAt(h', m.start) == Closed(e')
    ensures Walk(h, last, i, true) == Walk(h', last, i, true)
    decreases m.start - i
  {
    hide OpeningAt, Filled, Spans, SameSuffix;
    if i == m.start {
      WalkAtSpan(h, h', last, m, e');
    } else {
      OnTheWay(h, i, m);
      OpeningBefore(h, h', i, m.start);
      if OpeningAt(h, i).Closed? {
        SameWalkBefore(h, h', last, OpeningAt(h, i).end, m, e');
      } else {
        WalkByte(h, last, i);
        WalkByte(h', last, i);
        SameFilled(h, h', last, i, m.start);
        SameWalkBefore(h, h', if h[i] == ';' then i + 1 else last, i + 1, m, e');
      }
    }
  }

  lemma SameFilled(h: string, h': string, a: nat, b: nat, s: nat)
    requires SamePrefix(h, h', s) && a <= b <= s
    ensures Filled(h, a, b) == Filled(h', a, b)
  {
    assert h[a..b] == h'[a..b];
  }

  /** The text with the body of span `m`, whose tag has `n` bytes, replaced. */
  function WithBody(h: string, m: Span, n: nat, body: string): string
    requires m.start + 2 * n <= m.end <= |h|
  {
    h[..m.start + n] + body + h[m.end - n..]
  }

  /** Span `m` is quoted by `tag`. */
  ghost predicate QuotedBy(h: string, m: Span, tag: string) {
    && |tag| > 0 && TagLength(h, m.start) == |tag| && m.start + 2 * |tag| <= m.end <= |h|
    && h[m.start..m.start + |tag|] == tag
    && Closing(h, tag, m.start + |tag|) == Closed(m.end)
  }

  /** `tag` does not occur in `body` followed by `tag` except at its end. */
  ghost predicate ClosesOnce(body: string, tag: string) {
    FindSub(body + tag, tag, 0) == Some(|body|)
  }

  ghost predicate SameUpTo(h: string, h': string, n: nat) {
    n <= |h| && n <= |h'| && forall k :: 0 <= k < n ==> h[k] == h'[k]
  }

  lemma TagKept(h: string, h': string, s: nat, n: nat)
    requires n > 0 && TagLength(h, s) == n && SameUpTo(h, h', s + n)
    ensures TagLength(h', s) == n && h'[s..s + n] == h[s..s + n]
  {
    assert WordEnd(h', s + 1) == s + n - 1;
  }

  lemma SliceOfSlice(h: string, a: nat, b: nat, x: nat, y: nat)
    requires a <= b <= |h| && x <= y <= b - a
    ensures h[a..b][x..y] == h[a + x..a + y]
  {
    var s, t := h[a..b][x..y], h[a + x..a + y];
    forall k | 0 <= k < |s| ensures s[k] == t[k] {}
  }

  /** Text `body` followed by `sub` from `a` on holds `sub` first at its end. */
  lemma FirstAtEnd(h: string, a: nat, body: string, sub: string)
    requires ClosesOnce(body, sub) && SubAt(h, body + sub, a)
    ensures Closing(h, sub, a) == Closed(a + |body| + |sub|)
  {
    var t := body + sub;
    forall k | 0 <= k <= |body| ensures SubAt(h, sub, a + k) <==> SubAt(t, sub, k) {
      SliceOfSlice(h, a, a + |t|, k, k + |sub|);
    }
    assert SubAt(t, sub, |body|);
    assert SubAt(h, sub, a + |body|);
    forall j | a <= j < a + |body| ensures !SubAt(h, sub, j) {
      assert !SubAt(t, sub, j - a);
      assert SubAt(h, sub, a + (j - a)) <==> SubAt(t, sub, j - a);
    }
    assert FindSub(h, sub, a) == Some(a + |body|);
  }

  lemma ClosedByTag(h: string, tag: string, from: nat, end: nat)
    requires Closing(h, tag, from) == Closed(end)
    ensures end >= |tag| && SubAt(h, tag, end - |tag|)
  {
  }

  lemma WithBodyBytes(h: string, m: Span, tag: string, body: string, h': string)
    requires m.start + 2 * |tag| <= m.end <= |h| && h' == WithBody(h, m, |tag|, body)
    requires Closing(h, tag, m.start + |tag|) == Closed(m.end)
    ensures SameUpTo(h, h', m.start + |tag|)
    ensures SubAt(h', body + tag, m.start + |tag|)
  {
    ClosedByTag(h, tag, m.start + |tag|, m.end);
    hide Closing;
    var a, k, rest := m.start + |tag|, |body| + |tag|, h[m.end - |tag|..];
    assert rest[..|tag|] == tag;
    assert h' == h[..a] + (body + rest);
    assert h'[a..a + k] == (body + rest)[..k] == body + rest[..|tag|];
  }

  /** The replaced body is a body: the scan closes it where the old closing tag now stands. */
  lemma ReplacedSpan(h: string, m: Span, tag: string, body: string, h': string, e': nat)
    requires QuotedBy(h, m, tag) && ClosesOnce(body, tag) && h' == WithBody(h, m, |tag|, body)
    requires e' == m.start + |tag| + |body| + |tag|
    ensures OpeningAt(h', m.start) == Closed(e')
  {
    hide WithBody, TagLength, Closing, ClosesOnce;
    assert TagLength(h', m.start) == |tag| && h'[m.start..m.start + |tag|] == tag by {
      WithBodyBytes(h, m, tag, body, h');
      TagKept(h, h', m.start, |tag|);
    }
    assert Closing(h', tag, m.start + |tag|) == Closed(e') by {
      WithBodyBytes(h, m, tag, body, h');
      FirstAtEnd(h', m.start + |tag|, body, tag);
    }
  }

  lemma SuffixAfterBody(h: string, m: Span, n: nat, body: string, h': string, e': nat)
    requires m.start < m.start + 2 * n <= m.end <= |h| && h' == WithBody(h, m, n, body) && e' == m.start + n + |body| + n
    ensures SameSuffix(h, m.end, h', e')
    ensures SamePrefix(h, h', m.start)
  {
  }

  lemma ReplacedWalk(h: string, m: Span, tag: string, body: string, h': string, i: nat)
    requires m in Spans(h, i) && QuotedBy(h, m, tag) && ClosesOnce(body, tag) && h' == WithBody(h, m, |tag|, body)
    requires i <= m.start
    ensures i <= |h'| && Walk(h, i, i, true) == Walk(h', i, i, true)
  {
    var e' := m.start + |tag| + |body| + |tag|;
    ReplacedSpan(h, m, tag, body, h', e');
    SuffixAfterBody(h, m, |tag|, body, h', e');
    QuotedOpens(h, m, tag);
    SameWalkBefore(h, h', i, i, m, e');
  }

  /** Replacing the body of any span, by text in which its tag does not occur earlier, keeps the statement count. */
  lemma BodyIrrelevant(h: string, m: Span, tag: string, body: string)
    requires m in Spans(h, 0) && QuotedBy(h, m, tag) && ClosesOnce(body, tag)
    ensures TopLevelCount(WithBody(h, m, |tag|, body)) == TopLevelCount(h)
  {
    var h' := WithBody(h, m, |tag|, body);
    ReplacedWalk(h, m, tag, body, h', 0);
    WalkCounts(h);
    WalkCounts(h');
  }

  lemma QuotedOpens(h: string, m: Span, tag: string)
    requires QuotedBy(h, m, tag)
    ensures OpeningAt(h, m.start) == Closed(m.end)
  {
  }

  lemma WalkCounts(h: string)
    ensures TopLevelCount(h) == Walk(h, 0, 0, true)
  {
    CountIsWalk(h, [], 0, 0);
    assert [] + Spans(h, 0) == Spans(h, 0);
  }

  /** Every span found is quoted by a tag, so the theorem applies to all of them. */
  lemma FoundSpansAreQuoted(h: string, m: Span) returns (tag: string)
    requires m in Spans(h, 0)
    ensures QuotedBy(h, m, tag)
  {
    hide Closing, Spans, TagLength, WellSpaced;
    SpansWellSpaced(h, 0);
    var k :| 0 <= k < |Spans(h, 0)| && Spans(h, 0)[k] == m;
    SpacedMember(h, Spans(h, 0), 0, k);
    tag := h[m.start..m.start + TagLength(h, m.start)];
  }

  // ----- which spans there are, in bytes ------------------------------------------------------------

  /** A tag of `n` bytes stands at `i`: a dollar sign, any number of word bytes, a dollar sign. */
  ghost predicate TagAt(h: string, i: nat, n: nat) {
    2 <= n && i + n <= |h| && h[i] == '$' == h[i + n - 1] && forall k :: i < k < i + n - 1 ==> IsWordByte(h[k])
  }

  lemma TagLengthExact(h: string, i: nat, n: nat)
    requires n > 0
    ensures TagLength(h, i) == n <==> TagAt(h, i, n)
  {
    if TagAt(h, i, n) { assert WordEnd(h, i + 1) == i + n - 1; }
  }

  /** Bytes m.start..m.end are a tag, a body, and the first repetition of the tag. */
  ghost predicate QuotedInBytes(h: string, m: Span, n: nat) {
    && TagAt(h, m.start, n) && m.start + 2 * n <= m.end <= |h|
    && var tag := h[m.start..m.start + n];
       SubAt(h, tag, m.end - n) && forall j :: m.start + n <= j < m.end - n ==> !SubAt(h, tag, j)
  }

  lemma ClosingExact(h: string, tag: string, from: nat, end: nat)
    requires tag != ""
    ensures Closing(h, tag, from) == Closed(end) <==>
              from + |tag| <= end && SubAt(h, tag, end - |tag|) && forall j :: from <= j < end - |tag| ==> !SubAt(h, tag, j)
  {
    hide SubAt;
    if from + |tag| <= end && SubAt(h, tag, end - |tag|) && forall j :: from <= j < end - |tag| ==> !SubAt(h, tag, j) {
      assert FindSub(h, tag, from) == Some(end - |tag|);
    }
  }

  lemma OpensIff(h: string, m: Span)
    ensures OpeningAt(h, m.start) == Closed(m.end) <==> exists n :: QuotedInBytes(h, m, n)
  {
    hide SubAt, TagLength, Closing;
    var n := TagLength(h, m.start);
    if n > 0 {
      TagLengthExact(h, m.start, n);
      ClosingExact(h, h[m.start..m.start + n], m.start + n, m.end);
      assert OpeningAt(h, m.start) == Closed(m.end) ==> QuotedInBytes(h, m, n);
    }
    if k :| QuotedInBytes(h, m, k) { TagLengthExact(h, m.start, k); }
  }

  /** Every tag before byte `s` lies in a span that ends by then. */
  ghost predicate TagsCovered(h: string, s: nat) {
    forall i, n :: 0 <= i < s && TagAt(h, i, n) ==> CoveredBy(h, i, s)
  }

  ghost predicate CoveredBy(h: string, i: nat, s: nat) {
    exists m :: m in Spans(h, 0) && m.start <= i < m.end <= s
  }

  lemma TagOpens(h: string, i: nat, n: nat)
    requires TagAt(h, i, n)
    ensures !OpeningAt(h, i).NoTag?
  {
    hide Closing;
    TagLengthExact(h, i, n);
  }

  lemma OpenedTag(h: string, i: nat) returns (n: nat)
    requires !OpeningAt(h, i).NoTag?
    ensures TagAt(h, i, n)
  {
    n := TagLength(h, i);
    TagLengthExact(h, i, n);
  }

  lemma {:induction false} EarlierTagCovered(h: string, m: Span, p: nat, i: nat, n: nat) returns (m': Span)
    requires m in Spans(h, p) && p <= i < m.start && TagAt(h, i, n)
    ensures m' in Spans(h, p) && m'.start <= i < m'.end <= m.start
    decreases |h| - p
  {
    hide OpeningAt, TagAt;
    OnTheWay(h, p, m);
    if p == i { TagOpens(h, i, n); }
    match OpeningAt(h, p)
    case NoTag => m' := EarlierTagCovered(h, m, p + 1, i, n);
    case Closed(e) =>
      if i < e { m' := Span(p, e); } else { m' := EarlierTagCovered(h, m, e, i, n); }
  }

  /** A scan at `p` comes to every quoted stretch whose earlier tags are covered. */
  lemma {:induction false} ScanComesTo(h: string, m: Span, p: nat, done: seq<Span>)
    requires OpeningAt(h, m.start) == Closed(m.end) && TagsCovered(h, m.start)
    requires p <= m.start && Spans(h, 0) == done + Spans(h, p) && EndBy(done, p)
    ensures m in Spans(h, p)
    decreases |h| - p
  {
    hide OpeningAt, TagAt;
    if p < m.start {
      match OpeningAt(h, p)
      case NoTag => ScanComesTo(h, m, p + 1, done);
      case Unclosed =>
        var n := OpenedTag(h, p);
      case Closed(e) =>
        var n := OpenedTag(h, p);
        assert CoveredBy(h, p, m.start);
        var m' :| m' in Spans(h, 0) && m'.start <= p < m'.end <= m.start;
        SpansStartFrom(h, e);
        assert m' == Span(p, e);
        assert done + Spans(h, p) == (done + [Span(p, e)]) + Spans(h, e);
        ScanComesTo(h, m, e, done + [Span(p, e)]);
    }
  }

  /** A span is listed if and only if it is quoted by a tag and every tag before it lies in an earlier span. */
  lemma ListedIff(h: string, m: Span)
    ensures m in Spans(h, 0) <==> (exists n :: QuotedInBytes(h, m, n)) && TagsCovered(h, m.start)
  {
    hide OpeningAt, TagAt, QuotedInBytes;
    OpensIff(h, m);
    if m in Spans(h, 0) {
      SpanOpens(h, 0, m);
      forall i, n | 0 <= i < m.start && TagAt(h, i, n) ensures CoveredBy(h, i, m.start) {
        var m' := EarlierTagCovered(h, m, 0, i, n);
      }
    }
    if OpeningAt(h, m.start) == Closed(m.end) && TagsCovered(h, m.start) {
      assert Spans(h, 0) == [] + Spans(h, 0);
      ScanComesTo(h, m, 0, []);
    }
  }

  lemma {:induction false} SpanOpens(h: string, p: nat, m: Span)
    requires m in Spans(h, p)
    ensures OpeningAt(h, m.start) == Closed(m.end)
    decreases |h| - p
  {
    hide OpeningAt;
    match OpeningAt(h, p)
    case NoTag => SpanOpens(h, p + 1, m);
    case Closed(e) => if m != Span(p, e) { SpanOpens(h, e, m); }
  }

  /** The first body of a text, whatever its tag, including the empty one, is found. */
  lemma FirstBodyFound(a: string, w: string, b: string, c: string)
    requires '$' !in a && (forall k :: 0 <= k < |w| ==> IsWordByte(w[k])) && ClosesOnce(b, "$" + w + "$")
    ensures var t := "$" + w + "$"; Span(|a|, |a| + 2 * |t| + |b|) in Spans(a + t + b + t + c, 0)
  {
    hide QuotedInBytes, TagsCovered, Spans, ClosesOnce, IsWordByte;
    var t := "$" + w + "$";
    var h, m := a + t + b + t + c, Span(|a|, |a| + 2 * |t| + |b|);
    FirstBodyBytes(a, w, b, c);
    NoTagBefore(a, t + b + t + c);
    assert h == a + (t + b + t + c);
    ListedIff(h, m);
  }

  lemma NoTagBefore(a: string, rest: string)
    requires '$' !in a
    ensures TagsCovered(a + rest, |a|)
  {
    hide CoveredBy;
    assert forall i :: 0 <= i < |a| ==> (a + rest)[i] == a[i];
  }

  lemma Stands(pre: string, x: string, post: string)
    ensures SubAt(pre + x + post, x, |pre|)
  {
  }

  lemma TagStands(a: string, w: string, rest: string)
    requires forall k :: 0 <= k < |w| ==> IsWordByte(w[k])
    ensures TagAt(a + ("$" + w + "$") + rest, |a|, |w| + 2)
  {
    var h := a + ("$" + w + "$") + rest;
    forall k | |a| < k < |a| + |w| + 1 ensures IsWordByte(h[k]) { assert h[k] == w[k - |a| - 1]; }
  }

  lemma FirstBodyBytes(a: string, w: string, b: string, c: string)
    requires (forall k :: 0 <= k < |w| ==> IsWordByte(w[k])) && ClosesOnce(b, "$" + w + "$")
    ensures var t := "$" + w + "$"; QuotedInBytes(a + t + b + t + c, Span(|a|, |a| + 2 * |t| + |b|), |t|)
  {
    hide Closing, TagAt, ClosesOnce, IsWordByte;
    var t := "$" + w + "$";
    var h, p := a + t + b + t + c, |a| + |t|;
    assert h == a + t + (b + t + c) && h == (a + t) + (b + t) + c;
    TagStands(a, w, b + t + c);
    Stands(a, t, b + t + c);
    Stands(a + t, b + t, c);
    FirstAtEnd(h, p, b, t);
    ClosingExact(h, t, p, |a| + 2 * |t| + |b|);
  }

  // ----- the count, statement by statement ----------------------------------------------------------

  lemma {:induction false} PlainWalk(h: string, last: nat, i: nat, n: nat)
    requires last <= i <= n <= |h| && forall k :: i <= k < n ==> h[k] != '$' && h[k] != ';'
    ensures Walk(h, last, i, true) == Walk(h, last, n, true)
    decreases n - i
  {
    if i < n {
      WalkByte(h, last, i);
      PlainWalk(h, last, i + 1, n);
    }
  }

  /** A plain statement counts unless it is blank, and the rest counts as it would alone. */
  lemma FirstStatementCounts(a: string, b: string)
    requires '$' !in a && ';' !in a
    ensures TopLevelCount(a + ";" + b) == (if IsBlank(a) then 0 else 1) + TopLevelCount(b)
    ensures TopLevelCount(a) == if IsBlank(a) then 0 else 1
  {
    var h := a + ";" + b;
    WalkCounts(h);
    WalkCounts(b);
    WalkCounts(a);
    hide TopLevelCount, Walk, IsBlank;
    PlainWalk(h, 0, 0, |a|);
    PlainWalk(a, 0, 0, |a|);
    WalkByte(h, 0, |a|);
    assert h[0..|a|] == a && a[0..|a|] == a && h[|a|] == ';';
    WalkAtEnd(a);
    SameWalkAfter(h, |a| + 1, |a| + 1, b, 0, 0, true, |a| + 1, 0, 0);
  }

  lemma WalkAtEnd(a: string)
    ensures Walk(a, 0, |a|, true) == Filled(a, 0, |a|)
  {
  }
}
