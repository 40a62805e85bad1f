/**
 The mask against the text: a grammar of SQL text by its comments and literals
 (sections 4.1.2.1 and 4.1.5 of the PostgreSQL manual), stated without the automaton.
 Every text has a reading in the grammar, and the mask is what the reading shows.
 */
module SqlGrammar {
  import opened SqlMask

  // ----- the grammar ---------------------------------------------------------------------

  /** Text of a block comment: bytes that start no delimiter, and inner comments. */
  datatype Comment = End | Plain(byte: char, rest: Comment) | Inner(body: Comment, rest: Comment)

  /** The same, but some opener has no close. */
  datatype Unclosed = Last(text: Comment) | Deeper(text: Comment, inner: Unclosed)

  /** Text of a literal: bytes that are no quote, and doubled quotes. */
  datatype Content = Nil | Other(byte: char, rest: Content) | Pair(rest: Content)

  datatype Text =
    | Done
    | Bare(byte: char, rest: Text)
    | Dashed(line: string, rest: Text)
    | Commented(text: Comment, rest: Text)
    | Quoted(content: Content, rest: Text)
    | OpenComment(unclosed: Unclosed)
    | OpenQuote(content: Content)

  function Spell(c: Comment): string {
    match c
    case End => ""
    case Plain(b, rest) => [b] + Spell(rest)
    case Inner(body, rest) => "/*" + (Spell(body) + ("*/" + Spell(rest)))
  }

  function SpellUnclosed(u: Unclosed): string {
    match u
    case Last(c) => Spell(c)
    case Deeper(c, inner) => Spell(c) + ("/*" + SpellUnclosed(inner))
  }

  function SpellContent(c: Content): string {
    match c
    case Nil => ""
    case Other(b, rest) => [b] + SpellContent(rest)
    case Pair(rest) => "''" + SpellContent(rest)
  }

  function SpellText(t: Text): string {
    match t
    case Done => ""
    case Bare(b, rest) => [b] + SpellText(rest)
    case Dashed(line, rest) => ("--" + line) + SpellText(rest)
    case Commented(c, rest) => ("/*" + (Spell(c) + "*/")) + SpellText(rest)
    case Quoted(c, rest) => ("'" + (SpellContent(c) + "'")) + SpellText(rest)
    case OpenComment(u) => "/*" + SpellUnclosed(u)
    case OpenQuote(c) => "'" + SpellContent(c)
  }

  predicate Delimits(b: char, next: char) { (b == '/' && next == '*') || (b == '*' && next == '/') }

  /** No plain byte starts a delimiter, with `next` following. */
  predicate Balanced(c: Comment, next: char) {
    match c
    case End => true
    case Plain(b, rest) => !Delimits(b, ByteAt(Spell(rest), 0, next)) && Balanced(rest, next)
    case Inner(body, rest) => Balanced(body, '*') && Balanced(rest, next)
  }

  predicate NeverCloses(u: Unclosed) {
    match u
    case Last(c) => Balanced(c, '\0')
    case Deeper(c, inner) => Balanced(c, '/') && NeverCloses(inner)
  }

  predicate Unquoted(c: Content) {
    match c
    case Nil => true
    case Other(b, rest) => b != '\'' && Unquoted(rest)
    case Pair(rest) => Unquoted(rest)
  }

  /** Bare bytes start no comment or literal; a line comment runs to a newline or the end; a literal's last
      quote is not doubled. */
  predicate WellFormed(t: Text) {
    match t
    case Done => true
    case Bare(b, rest) =>
      var next := ByteAt(SpellText(rest), 0, '\0');
      b != '\'' && !(b == '-' && next == '-') && !(b == '/' && next == '*') && WellFormed(rest)
    case Dashed(line, rest) => '\n' !in line && (SpellText(rest) == "" || SpellText(rest)[0] == '\n') && WellFormed(rest)
    case Commented(c, rest) => Balanced(c, '*') && WellFormed(rest)
    case Quoted(c, rest) => Unquoted(c) && ByteAt(SpellText(rest), 0, '\0') != '\'' && WellFormed(rest)
    case OpenComment(u) => NeverCloses(u)
    case OpenQuote(c) => Unquoted(c)
  }

  /** Bare bytes are shown, the rest is blank. */
  function Shown(t: Text): string {
    match t
    case Done => ""
    case Bare(b, rest) => [b] + Shown(rest)
    case Dashed(line, rest) => Blanks("--" + line) + Shown(rest)
    case Commented(c, rest) => Blanks("/*" + (Spell(c) + "*/")) + Shown(rest)
    case Quoted(c, rest) => Blanks("'" + (SpellContent(c) + "'")) + Shown(rest)
    case OpenComment(_) => Blanks(SpellText(t))
    case OpenQuote(_) => Blanks(SpellText(t))
  }

  // ----- how the automaton reads it --------------------------------------------------------

  /** Read from `q` with `next` following, `y` stays inside a comment or literal and ends in `q'`. */
  ghost predicate Reads(q: Lex, y: string, next: char, q': Lex) {
    StaysInside(q, y, 0, next) && Drive(q, y, 0, next) == q'
  }

  lemma {:induction false} ReadsShift(q: Lex, u: string, v: string, k: nat, next: char)
    requires k <= |v|
    ensures Drive(q, u + v, |u| + k, next) == Drive(q, v, k, next)
    ensures StaysInside(q, u + v, |u| + k, next) == StaysInside(q, v, k, next)
    decreases |v| - k
  {
    hide NextLex;
    if k < |v| {
      var y := u + v;
      assert y[|u| + k] == v[k] && ByteAt(y, |u| + k + 1, next) == ByteAt(v, k + 1, next);
      ReadsShift(NextLex(q, v[k], ByteAt(v, k + 1, next)), u, v, k + 1, next);
    }
  }

  lemma {:induction false} ReadsOn(q: Lex, u: string, v: string, k: nat, next: char)
    requires k <= |u|
    ensures var q1 := Drive(q, u, k, ByteAt(v, 0, next));
            && Drive(q, u + v, k, next) == Drive(q1, v, 0, next)
            && (StaysInside(q, u, k, ByteAt(v, 0, next)) && StaysInside(q1, v, 0, next) ==> StaysInside(q, u + v, k, next))
    decreases |u| - k
  {
    hide NextLex;
    if k == |u| {
      ReadsShift(q, u, v, 0, next);
    } else {
      var y := u + v;
      assert y[k] == u[k] && ByteAt(y, k + 1, next) == ByteAt(u, k + 1, ByteAt(v, 0, next));
      ReadsOn(NextLex(q, u[k], ByteAt(y, k + 1, next)), u, v, k + 1, next);
    }
  }

  lemma ReadsJoin(q: Lex, u: string, q1: Lex, v: string, q2: Lex, next: char)
    requires Reads(q, u, ByteAt(v, 0, next), q1) && Reads(q1, v, next, q2)
    ensures Reads(q, u + v, next, q2)
  {
    ReadsOn(q, u, v, 0, next);
  }

  lemma ReadsByte(q: Lex, b: char, next: char)
    requires q != Code
    ensures Reads(q, [b], next, NextLex(q, b, next))
  {
  }

  lemma ReadsTwo(q: Lex, b: char, b': char, next: char)
    requires q != Code && NextLex(q, b, b') != Code
    ensures Reads(q, [b, b'], next, NextLex(NextLex(q, b, b'), b', next))
  {
    ReadsByte(NextLex(q, b, b'), b', next);
    ReadsByte(q, b, b');
    ReadsJoin(q, [b], NextLex(q, b, b'), [b'], NextLex(NextLex(q, b, b'), b', next), next);
    assert [b] + [b'] == [b, b'];
  }

  lemma OpenerReads(d: nat, next: char)
    ensures Reads(Block(d), "/*", next, Block(d + 1))
  {
    ReadsTwo(Block(d), '/', '*', next);
  }

  lemma CloserReads(d: nat, next: char)
    ensures Reads(Block(d + 1), "*/", next, if d == 0 then Code else Block(d))
  {
    ReadsTwo(Block(d + 1), '*', '/', next);
  }

  /** Balanced text leaves the nesting where it was. */
  lemma {:induction false} CommentReads(c: Comment, d: nat, next: char)
    requires d >= 1 && Balanced(c, next)
    ensures Reads(Block(d), Spell(c), next, Block(d))
    decreases c
  {
    match c
    case End =>
    case Plain(b, rest) =>
      CommentReads(rest, d, next);
      ReadsByte(Block(d), b, ByteAt(Spell(rest), 0, next));
      ReadsJoin(Block(d), [b], Block(d), Spell(rest), Block(d), next);
    case Inner(body, rest) =>
      hide Reads;
      CommentReads(rest, d, next);
      CommentReads(body, d + 1, '*');
      var tail := "*/" + Spell(rest);
      CloserReads(d, ByteAt(Spell(rest), 0, next));
      ReadsJoin(Block(d + 1), "*/", Block(d), Spell(rest), Block(d), next);
      ReadsJoin(Block(d + 1), Spell(body), Block(d + 1), tail, Block(d), next);
      OpenerReads(d, ByteAt(Spell(body) + tail, 0, next));
      ReadsJoin(Block(d), "/*", Block(d + 1), Spell(body) + tail, Block(d), next);
  }

  lemma {:induction false} UnclosedReads(u: Unclosed, d: nat) returns (q: Lex)
    requires d >= 1 && NeverCloses(u)
    ensures Reads(Block(d), SpellUnclosed(u), '\0', q)
    decreases u
  {
    match u
    case Last(c) =>
      CommentReads(c, d, '\0');
      q := Block(d);
    case Deeper(c, inner) =>
      hide Reads;
      q := UnclosedReads(inner, d + 1);
      var tail := "/*" + SpellUnclosed(inner);
      OpenerReads(d, ByteAt(SpellUnclosed(inner), 0, '\0'));
      ReadsJoin(Block(d), "/*", Block(d + 1), SpellUnclosed(inner), q, '\0');
      CommentReads(c, d, '/');
      ReadsJoin(Block(d), Spell(c), Block(d), tail, q, '\0');
  }

  lemma {:induction false} ContentReads(c: Content, next: char)
    requires Unquoted(c)
    ensures Reads(Literal, SpellContent(c), next, Literal)
    decreases c
  {
    match c
    case Nil =>
    case Other(b, rest) =>
      ContentReads(rest, next);
      ReadsByte(Literal, b, ByteAt(SpellContent(rest), 0, next));
      ReadsJoin(Literal, [b], Literal, SpellContent(rest), Literal, next);
    case Pair(rest) =>
      ContentReads(rest, next);
      ReadsTwo(Literal, '\'', '\'', ByteAt(SpellContent(rest), 0, next));
      ReadsJoin(Literal, "''", Literal, SpellContent(rest), Literal, next);
  }

  // ----- the mask is what is shown ------------------------------------------------------------

  lemma BlanksJoin(u: string, v: string)
    ensures Blanks(u + v) == Blanks(u) + Blanks(v)
  {
    hide Blank;
  }

  lemma TailOf(p: string, r: string, s: string)
    requires s == p + r
    ensures SameTail(s, |p|, r, 0) && StandsAt(s, 0, p) && ByteAt(s, |p|, '\0') == ByteAt(r, 0, '\0')
  {
  }

  /** A comment or literal from its first byte `b` on, up to `r`. */
  lemma TokenStates(b: char, y: string, r: string, s: string, q: Lex, q': Lex)
    requires s == [b] + y + r && q == NextLex(Code, b, ByteAt(y + r, 0, '\0')) != Code && Reads(q, y, ByteAt(r, 0, '\0'), q')
    ensures StateAt(s, 0) == Code && StateAt(s, 1) == q && StateAt(s, 1 + |y|) == q' && MaskByte(s, 0) == Blank(b)
    ensures StandsAt(s, 1, y) && StaysInside(q, y, 0, ByteAt(s, 1 + |y|, '\0')) && SameTail(s, 1 + |y|, r, 0)
  {
    assert Ahead(s, 0) == ByteAt(y + r, 0, '\0') by { assert 1 < |s| ==> s[1] == (y + r)[0]; }
    assert StateAt(s, 1) == q;
    TailOf([b] + y, r, s);
    assert StandsAt(s, 1, y);
    DriveIsState(s, 1, y, 0);
  }

  lemma TokenMask(b: char, y: string, r: string, q: Lex, q': Lex)
    requires q == NextLex(Code, b, ByteAt(y + r, 0, '\0')) != Code && Reads(q, y, ByteAt(r, 0, '\0'), q') && (q' == Code || r == "")
    ensures Mask([b] + y + r) == Blanks([b] + y) + Mask(r)
  {
    var s := [b] + y + r;
    TokenStates(b, y, r, s, q, q');
    hide StateAt, NextLex, Reads, StaysInside, MaskByte, StandsAt, SameTail, ByteAt;
    MaskBytes(s);
    MaskBytes(r);
    StretchMask(s, 1, y);
    BlanksJoin([b], y);
    assert Blanks([b]) == [Blank(b)];
    var m, n := Mask(s), 1 + |y|;
    assert m[n..] == Mask(r) by {
      if r != "" {
        assert StateAt(r, 0) == Code by { StartsInCode(r); }
        SuffixMask(s, n, r, 0);
        assert Mask(r)[0..] == Mask(r);
      }
    }
    Pieces(m, 1, n);
    assert m[..1] == [m[0]];
  }

  lemma StartsInCode(s: string)
    ensures StateAt(s, 0) == Code
  {
  }

  lemma BareMask(b: char, r: string)
    requires NextLex(Code, b, ByteAt(r, 0, '\0')) == Code
    ensures Mask([b] + r) == [b] + Mask(r)
  {
    var s := [b] + r;
    TailOf([b], r, s);
    assert Ahead(s, 0) == ByteAt(r, 0, '\0') && StateAt(s, 1) == Code && MaskByte(s, 0) == b;
    SuffixMask(s, 1, r, 0);
    assert Mask(s) == [Mask(s)[0]] + Mask(s)[1..] && Mask(r)[0..] == Mask(r);
  }

  /** A line comment: the newline that ends it is shown, and code goes on behind it. */
  lemma LineMask(line: string, r: string)
    requires '\n' !in line && (r == "" || r[0] == '\n')
    ensures Mask("-" + ("-" + line) + r) == Blanks("-" + ("-" + line)) + Mask(r)
  {
    var y := "-" + line;
    LineText(y, 0, ByteAt(r, 0, '\0'));
    if r == "" {
      TokenMask('-', y, r, Line, Line);
    } else {
      var r' := r[1..];
      assert r == "\n" + r';
      BareMask('\n', r');
      ReadsByte(Line, '\n', ByteAt(r', 0, '\0'));
      ReadsJoin(Line, y, Line, "\n", Code, ByteAt(r', 0, '\0'));
      TokenMask('-', y + "\n", r', Line, Code);
      assert "-" + (y + "\n") + r' == "-" + y + r;
      assert "-" + (y + "\n") == ("-" + y) + "\n";
      BlanksJoin("-" + y, "\n");
      assert Blanks("\n") == "\n";
      assert Blanks("-" + y) + ("\n" + Mask(r')) == (Blanks("-" + y) + "\n") + Mask(r');
    }
  }

  lemma CommentMask(c: Comment, r: string)
    requires Balanced(c, '*')
    ensures Mask("/" + ("*" + (Spell(c) + "*/")) + r) == Blanks("/" + ("*" + (Spell(c) + "*/"))) + Mask(r)
  {
    var next := ByteAt(r, 0, '\0');
    CommentReads(c, 1, '*');
    CloserReads(0, next);
    ReadsJoin(Block(1), Spell(c), Block(1), "*/", Code, next);
    ReadsByte(BlockSecond(1), '*', ByteAt(Spell(c) + "*/", 0, next));
    ReadsJoin(BlockSecond(1), "*", Block(1), Spell(c) + "*/", Code, next);
    TokenMask('/', "*" + (Spell(c) + "*/"), r, BlockSecond(1), Code);
  }

  lemma LiteralMask(c: Content, r: string)
    requires Unquoted(c) && ByteAt(r, 0, '\0') != '\''
    ensures Mask("'" + (SpellContent(c) + "'") + r) == Blanks("'" + (SpellContent(c) + "'")) + Mask(r)
  {
    var next := ByteAt(r, 0, '\0');
    ContentReads(c, '\'');
    ReadsByte(Literal, '\'', next);
    ReadsJoin(Literal, SpellContent(c), Literal, "'", Code, next);
    TokenMask('\'', SpellContent(c) + "'", r, Literal, Code);
  }

  lemma OpenMask(b: char, y: string, q: Lex, q': Lex)
    requires q == NextLex(Code, b, ByteAt(y, 0, '\0')) != Code && Reads(q, y, '\0', q')
    ensures Mask([b] + y) == Blanks([b] + y)
  {
    assert y + "" == y && [b] + y + "" == [b] + y;
    TokenMask(b, y, "", q, q');
    assert Mask("") == "" && Blanks([b] + y) + "" == Blanks([b] + y);
  }

  lemma OpenCommentMask(u: Unclosed)
    requires NeverCloses(u)
    ensures Mask("/*" + SpellUnclosed(u)) == Blanks("/*" + SpellUnclosed(u))
  {
    var q := UnclosedReads(u, 1);
    var y := "*" + SpellUnclosed(u);
    ReadsByte(BlockSecond(1), '*', ByteAt(SpellUnclosed(u), 0, '\0'));
    hide Reads, Mask, Blanks;
    ReadsJoin(BlockSecond(1), "*", Block(1), SpellUnclosed(u), q, '\0');
    OpenMask('/', y, BlockSecond(1), q);
    assert "/*" + SpellUnclosed(u) == "/" + y;
  }

  lemma OpenQuoteMask(c: Content)
    requires Unquoted(c)
    ensures Mask("'" + SpellContent(c)) == Blanks("'" + SpellContent(c))
  {
    hide Reads, Mask, Blanks;
    ContentReads(c, '\0');
    OpenMask('\'', SpellContent(c), Literal, Literal);
  }

  lemma BareIsCode(b: char, next: char)
    requires b != '\'' && !(b == '-' && next == '-') && !(b == '/' && next == '*')
    ensures NextLex(Code, b, next) == Code
  {
  }

  /** The mask of a text is what its reading shows. */
  lemma {:induction false} MaskExact(t: Text)
    requires WellFormed(t)
    ensures Mask(SpellText(t)) == Shown(t)
    decreases t
  {
    hide Mask, Blanks, NextLex, Balanced, NeverCloses, Unquoted, Spell, SpellContent, SpellUnclosed, ByteAt;
    match t
    case Done => NothingMasked();
    case Bare(b, rest) =>
      MaskExact(rest);
      BareIsCode(b, ByteAt(SpellText(rest), 0, '\0'));
      BareMask(b, SpellText(rest));
    case Dashed(line, rest) =>
      MaskExact(rest);
      LineMask(line, SpellText(rest));
      assert "--" + line == "-" + ("-" + line);
    case Commented(c, rest) =>
      MaskExact(rest);
      CommentMask(c, SpellText(rest));
      assert "/*" + (Spell(c) + "*/") == "/" + ("*" + (Spell(c) + "*/"));
    case Quoted(c, rest) =>
      MaskExact(rest);
      LiteralMask(c, SpellText(rest));
    case OpenComment(u) => OpenCommentMask(u);
    case OpenQuote(c) => OpenQuoteMask(c);
  }

  lemma NothingMasked()
    ensures Mask("") == ""
  {
  }

  // ----- every text has a reading ----------------------------------------------------------------

  /** The text of a comment up to its close, and what follows, or the fact that it has none. */
  datatype CommentRead = Closed(text: Comment, after: string) | Open(unclosed: Unclosed)

  ghost predicate CommentIs(y: string, r: CommentRead) {
    match r
    case Closed(c, after) => y == Spell(c) + ("*/" + after) && Balanced(c, '*')
    case Open(u) => y == SpellUnclosed(u) && NeverCloses(u)
  }

  function WithPlain(b: char, r: CommentRead): CommentRead {
    match r
    case Closed(c, after) => Closed(Plain(b, c), after)
    case Open(Last(c)) => Open(Last(Plain(b, c)))
    case Open(Deeper(c, inner)) => Open(Deeper(Plain(b, c), inner))
  }

  function WithInner(body: Comment, r: CommentRead): CommentRead {
    match r
    case Closed(c, after) => Closed(Inner(body, c), after)
    case Open(Last(c)) => Open(Last(Inner(body, c)))
    case Open(Deeper(c, inner)) => Open(Deeper(Inner(body, c), inner))
  }

  lemma PlainIs(b: char, y: string, r: CommentRead)
    requires CommentIs(y, r) && !Delimits(b, ByteAt(y, 0, '\0'))
    ensures CommentIs([b] + y, WithPlain(b, r))
  {
    match r
    case Closed(c, after) =>
      assert [b] + (Spell(c) + ("*/" + after)) == ([b] + Spell(c)) + ("*/" + after);
      assert ByteAt(y, 0, '\0') == ByteAt(Spell(c), 0, '*');
    case Open(Last(c)) =>
    case Open(Deeper(c, inner)) =>
      assert [b] + (Spell(c) + ("/*" + SpellUnclosed(inner))) == ([b] + Spell(c)) + ("/*" + SpellUnclosed(inner));
      assert ByteAt(y, 0, '\0') == ByteAt(Spell(c), 0, '/');
  }

  lemma InnerIs(body: Comment, y: string, r: CommentRead)
    requires CommentIs(y, r) && Balanced(body, '*')
    ensures CommentIs("/*" + (Spell(body) + ("*/" + y)), WithInner(body, r))
  {
    match r
    case Closed(c, after) => Regroup(Spell(body), Spell(c), "*/" + after);
    case Open(Last(c)) =>
    case Open(Deeper(c, inner)) => Regroup(Spell(body), Spell(c), "/*" + SpellUnclosed(inner));
  }

  lemma Regroup(u: string, v: string, w: string)
    ensures "/*" + (u + ("*/" + (v + w))) == ("/*" + (u + ("*/" + v))) + w
  {
    assert u + ("*/" + (v + w)) == (u + ("*/" + v)) + w;
  }

  lemma {:induction false} ReadComment(y: string) returns (r: CommentRead)
    ensures CommentIs(y, r)
    ensures r.Closed? ==> |r.after| < |y|
    decreases |y|
  {
    if y == "" { return Open(Last(End)); }
    var next := ByteAt(y, 1, '\0');
    if y[0] == '*' && next == '/' {
      assert y == "*/" + y[2..] && Spell(End) + ("*/" + y[2..]) == "*/" + y[2..];
      return Closed(End, y[2..]);
    }
    if y[0] == '/' && next == '*' {
      assert y == "/*" + y[2..];
      var inner := ReadComment(y[2..]);
      match inner
      case Open(u) =>
        assert "" + ("/*" + SpellUnclosed(u)) == "/*" + SpellUnclosed(u);
        return Open(Deeper(End, u));
      case Closed(c, after) =>
        var rest := ReadComment(after);
        InnerIs(c, after, rest);
        return WithInner(c, rest);
    }
    r := ReadComment(y[1..]);
    assert y == [y[0]] + y[1..] && ByteAt(y[1..], 0, '\0') == next;
    PlainIs(y[0], y[1..], r);
    r := WithPlain(y[0], r);
  }

  /** The text of a literal up to its closing quote, and what follows. */
  lemma {:induction false} ReadLiteral(y: string) returns (c: Content, closed: bool, after: string)
    ensures Unquoted(c)
    ensures closed ==> y == SpellContent(c) + ("'" + after) && ByteAt(after, 0, '\0') != '\'' && |after| < |y|
    ensures !closed ==> y == SpellContent(c)
    decreases |y|
  {
    if y == "" { return Nil, false, ""; }
    if y[0] != '\'' {
      c, closed, after := ReadLiteral(y[1..]);
      assert y == [y[0]] + y[1..];
      assert closed ==> [y[0]] + (SpellContent(c) + ("'" + after)) == ([y[0]] + SpellContent(c)) + ("'" + after);
      c := Other(y[0], c);
    } else if ByteAt(y, 1, '\0') == '\'' {
      c, closed, after := ReadLiteral(y[2..]);
      assert y == "''" + y[2..];
      assert closed ==> "''" + (SpellContent(c) + ("'" + after)) == ("''" + SpellContent(c)) + ("'" + after);
      c := Pair(c);
    } else {
      assert y == "'" + y[1..] && "" + ("'" + y[1..]) == "'" + y[1..];
      return Nil, true, y[1..];
    }
  }

  lemma {:induction false} ReadLine(y: string) returns (line: string, after: string)
    ensures y == line + after && '\n' !in line && (after == "" || after[0] == '\n')
    decreases |y|
  {
    if y == "" || y[0] == '\n' { return "", y; }
    line, after := ReadLine(y[1..]);
    assert y == [y[0]] + y[1..];
    line := [y[0]] + line;
  }

  /** The grammar covers every text, so the mask of every text is settled by it. */
  lemma {:induction false} EveryTextReads(s: string) returns (t: Text)
    ensures WellFormed(t) && SpellText(t) == s
    decreases |s|
  {
    if s == "" { return Done; }
    var next := ByteAt(s, 1, '\0');
    if s[0] == '\'' {
      t := ReadQuoted(s);
    } else if s[0] == '-' && next == '-' {
      assert s == "--" + s[2..];
      var line, after := ReadLine(s[2..]);
      var rest := EveryTextReads(after);
      assert s == ("--" + line) + after;
      return Dashed(line, rest);
    } else if s[0] == '/' && next == '*' {
      t := ReadCommented(s);
    } else {
      var rest := EveryTextReads(s[1..]);
      assert s == [s[0]] + s[1..] && ByteAt(s[1..], 0, '\0') == next;
      return Bare(s[0], rest);
    }
  }

  lemma {:induction false} ReadQuoted(s: string) returns (t: Text)
    requires s != "" && s[0] == '\''
    ensures WellFormed(t) && SpellText(t) == s
    decreases |s|, 0
  {
    assert s == "'" + s[1..];
    var c, closed, after := ReadLiteral(s[1..]);
    if !closed { return OpenQuote(c); }
    var rest := EveryTextReads(after);
    assert "'" + (SpellContent(c) + ("'" + after)) == ("'" + (SpellContent(c) + "'")) + after;
    t := Quoted(c, rest);
  }

  lemma {:induction false} ReadCommented(s: string) returns (t: Text)
    requires |s| >= 2 && s[0] == '/' && s[1] == '*'
    ensures WellFormed(t) && SpellText(t) == s
    decreases |s|, 0
  {
    assert s == "/*" + s[2..];
    var r := ReadComment(s[2..]);
    match r
    case Open(u) => return OpenComment(u);
    case Closed(c, after) =>
      var rest := EveryTextReads(after);
      assert "/*" + (Spell(c) + ("*/" + after)) == ("/*" + (Spell(c) + "*/")) + after;
      t := Commented(c, rest);
  }

  /** A semicolon inside an outer comment, behind an inner one, is blanked. */
  lemma NestedCommentExample()
    ensures Mask("/*/**/;*/") == "         "
  {
    var c := Inner(End, Plain(';', End));
    assert Spell(End) == "" && Spell(Plain(';', End)) == ";";
    assert Spell(c) == "/*" + ("" + ("*/" + ";")) == "/**/;";
    var t := Commented(c, Done);
    assert SpellText(t) == ("/*" + ("/**/;" + "*/")) + "" == "/*/**/;*/";
    MaskExact(t);
  }
}
