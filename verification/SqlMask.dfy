/**
 Masking of SQL text: comments and string literals are blanked, byte by byte, so
 that what remains is executable SQL at its original offsets.

 Text is a string of bytes: one char per byte, with code 0 to 255.
 */
module SqlMask {
  import opened Utf8

  // ----- the automaton ---------------------------------------------------------------

  /** What the lexer is in the middle of when it comes to a byte. */
  datatype Lex =
    | Code
    | Line                        // a `--` comment
    | Block(depth: nat)           // nested /* */ comments
    | BlockSecond(depth: nat)     // the second byte of a delimiter; `depth` holds after it
    | Literal
    | LiteralSecond               // the second quote of a doubled quote

  predicate Opens(c: char, nx: char) { c == '/' && nx == '*' }
  predicate Closes(c: char, nx: char) { c == '*' && nx == '/' }

  /** One byte of the automaton, with one byte of lookahead. */
  function NextLex(q: Lex, c: char, nx: char): Lex {
    match q
    case Code =>
      if c == '-' && nx == '-' then Line
      else if Opens(c, nx) then BlockSecond(1)
      else if c == '\'' then Literal
      else Code
    case Line => if c == '\n' then Code else Line
    case Block(d) =>
      if Opens(c, nx) then BlockSecond(d + 1)
      else if Closes(c, nx) then BlockSecond(if d == 0 then 0 else d - 1)
      else Block(d)
    case BlockSecond(d) => if d == 0 then Code else Block(d)
    case Literal => if c != '\'' then Literal else if nx == '\'' then LiteralSecond else Code
    case LiteralSecond => Literal
  }

  /** The byte is code and is kept. */
  predicate Kept(q: Lex, c: char, nx: char) {
    (q == Code && NextLex(q, c, nx) == Code) || (q == Line && c == '\n')
  }

  function Ahead(s: string, i: nat): char
    requires i < |s|
  {
    if i + 1 < |s| then s[i + 1] else '\0'
  }

  /** The automaton's state when it comes to byte `i`. */
  function StateAt(s: string, i: nat): Lex
    requires i <= |s|
  {
    if i == 0 then Code else NextLex(StateAt(s, i - 1), s[i - 1], Ahead(s, i - 1))
  }

  predicate KeptAt(s: string, i: nat)
    requires i < |s|
  {
    Kept(StateAt(s, i), s[i], Ahead(s, i))
  }

  function Blank(c: char): char { if c == '\n' then '\n' else ' ' }

  function MaskByte(s: string, i: nat): char
    requires i < |s|
  {
    if KeptAt(s, i) then s[i] else Blank(s[i])
  }

  function Mask(s: string): string {
    seq(|s|, i requires 0 <= i < |s| => MaskByte(s, i))
  }

  // ----- the scanner -------------------------------------------------------------------

  /** `out` is the mask of the first `i` bytes. */
  ghost predicate MaskedTo(s: string, i: nat, out: string) {
    i <= |s| && |out| == i && forall k :: 0 <= k < i ==> out[k] == MaskByte(s, k)
  }

  /** `mask_sql`: the scanner's loops compute the automaton's mask. */
  method MaskSql(src: string) returns (out: string)
    ensures out == Mask(src)
  {
    var n := |src|;
    out := "";
    var i := 0;
    while i < n
      invariant MaskedTo(src, i, out)
      invariant i < n ==> StateAt(src, i) == Code || (StateAt(src, i) == Line && src[i] == '\n')
    {
      var c := src[i];
      var nx := if i + 1 < n then src[i + 1] else '\0';
      if c == '-' && nx == '-' {
        out, i := SkipLine(src, i, out);
      } else if c == '/' && nx == '*' {
        assert StateAt(src, i + 1) == BlockSecond(1) && StateAt(src, i + 2) == Block(1);
        out, i := SkipBlock(src, i + 2, out + "  ");
      } else if c == '\'' {
        assert StateAt(src, i + 1) == Literal;
        out, i := SkipLiteral(src, i + 1, out + " ");
      } else {
        out := out + [c];
        i := i + 1;
      }
    }
  }

  method SkipLine(src: string, start: nat, before: string) returns (out: string, i: nat)
    requires start + 1 < |src| && src[start] == '-' == src[start + 1]
    requires MaskedTo(src, start, before) && StateAt(src, start) == Code
    ensures start < i && MaskedTo(src, i, out)
    ensures i == |src| || (src[i] == '\n' && StateAt(src, i) == Line)
  {
    out, i := before, start;
    while i < |src| && src[i] != '\n'
      invariant start <= i && MaskedTo(src, i, out)
      invariant StateAt(src, i) == if i == start then Code else Line
    {
      out := out + " ";
      i := i + 1;
    }
  }

  method SkipBlock(src: string, start: nat, before: string) returns (out: string, i: nat)
    requires MaskedTo(src, start, before) && StateAt(src, start) == Block(1)
    ensures start <= i && MaskedTo(src, i, out)
    ensures i == |src| || StateAt(src, i) == Code
  {
    out, i := before, start;
    var depth := 1;
    while i < |src| && depth > 0
      invariant start <= i && MaskedTo(src, i, out)
      invariant depth >= 0 && StateAt(src, i) == if depth == 0 then Code else Block(depth)
      decreases |src| - i
    {
      if src[i] == '/' && i + 1 < |src| && src[i + 1] == '*' {
        assert StateAt(src, i + 1) == BlockSecond(depth + 1);
        depth := depth + 1;
        out := out + "  ";
        i := i + 2;
      } else if src[i] == '*' && i + 1 < |src| && src[i + 1] == '/' {
        assert StateAt(src, i + 1) == BlockSecond(depth - 1);
        depth := depth - 1;
        out := out + "  ";
        i := i + 2;
      } else {
        out := out + [Blank(src[i])];
        i := i + 1;
      }
    }
  }

  method SkipLiteral(src: string, start: nat, before: string) returns (out: string, i: nat)
    requires MaskedTo(src, start, before) && StateAt(src, start) == Literal
    ensures start <= i && MaskedTo(src, i, out)
    ensures i == |src| || StateAt(src, i) == Code
  {
    out, i := before, start;
    while i < |src|
      invariant start <= i && MaskedTo(src, i, out) && StateAt(src, i) == Literal
    {
      if src[i] == '\'' && i + 1 < |src| && src[i + 1] == '\'' {
        assert StateAt(src, i + 1) == LiteralSecond;
        out := out + "  ";
        i := i + 2;
      } else if src[i] == '\'' {
        out := out + " ";
        i := i + 1;
        return;
      } else {
        out := out + [Blank(src[i])];
        i := i + 1;
      }
    }
  }

  // ----- what the mask preserves ---------------------------------------------------------

  /** Same length, each byte the source byte or a blank, newlines exactly where they were. */
  lemma MaskShape(s: string)
    ensures |Mask(s)| == |s|
    ensures forall i :: 0 <= i < |s| ==> Mask(s)[i] == s[i] || Mask(s)[i] == ' '
    ensures forall i :: 0 <= i < |s| ==> (Mask(s)[i] == '\n' <==> s[i] == '\n')
  {
  }

  /** A delimiter's second byte is one: an asterisk or slash, or a quote. */
  lemma {:induction false} SecondByte(s: string, i: nat)
    requires i < |s|
    ensures StateAt(s, i).BlockSecond? ==> s[i] == '*' || s[i] == '/'
    ensures StateAt(s, i).LiteralSecond? ==> s[i] == '\''
    ensures StateAt(s, i).Block? ==> StateAt(s, i).depth > 0
    decreases i
  {
    if i > 0 { SecondByte(s, i - 1); }
  }

  lemma NonAsciiStep(s: string, i: nat)
    requires i < |s| && s[i] as int >= 0x80
    ensures StateAt(s, i + 1) == StateAt(s, i)
    ensures KeptAt(s, i) <==> StateAt(s, i) == Code
  {
    SecondByte(s, i);
  }

  /** Non-ASCII bytes never change the state, so a character is kept or blanked as one. */
  lemma {:induction false} CharacterWhole(s: string, i: nat, n: nat)
    requires i + n <= |s| && forall k :: i <= k < i + n ==> s[k] as int >= 0x80
    ensures forall k :: i <= k < i + n ==> StateAt(s, k) == StateAt(s, i) && (KeptAt(s, k) <==> StateAt(s, i) == Code)
    ensures n > 0 ==> StateAt(s, i + n) == StateAt(s, i)
    decreases n
  {
    hide StateAt, KeptAt;
    if n > 0 {
      CharacterWhole(s, i, n - 1);
      NonAsciiStep(s, i + n - 1);
    }
  }

  lemma {:induction false} SpacesValid(m: string, i: nat, n: nat)
    requires i + n <= |m| && (forall k :: i <= k < i + n ==> m[k] == ' ') && ValidFrom(m, i + n)
    ensures ValidFrom(m, i)
    decreases n
  {
    if n > 0 { SpacesValid(m, i + 1, n - 1); }
  }

  lemma SameChar(s: string, m: string, i: nat)
    requires i < |s| == |m| && CharLen(s, i) > 0
    requires forall k :: i <= k < i + CharLen(s, i) ==> m[k] == s[k]
    ensures CharLen(m, i) == CharLen(s, i)
  {
  }

  /** A character kept whole or blanked whole keeps the text before it well-formed. */
  lemma CharacterStaysValid(s: string, m: string, i: nat, kept: bool)
    requires i < |s| == |m| && CharLen(s, i) > 0 && ValidFrom(m, i + CharLen(s, i))
    requires forall k :: i <= k < i + CharLen(s, i) ==> m[k] == if kept then s[k] else Blank(s[k])
    ensures ValidFrom(m, i)
  {
    if kept {
      SameChar(s, m, i);
    } else if CharLen(s, i) == 1 {
      assert CharLen(m, i) == 1;
    } else {
      SpacesValid(m, i, CharLen(s, i));
    }
  }

  /** Each well-formed character is kept whole or blanked whole. */
  lemma CharacterMaskedWhole(s: string, i: nat)
    requires i < |s| && CharLen(s, i) > 0
    ensures forall k :: i <= k < i + CharLen(s, i) ==> Mask(s)[k] == if KeptAt(s, i) then s[k] else Blank(s[k])
  {
    var n := CharLen(s, i);
    if n >= 2 { CharacterWhole(s, i, n); }
    forall k | i <= k < i + n ensures Mask(s)[k] == if KeptAt(s, i) then s[k] else Blank(s[k]) {
      assert n >= 2 || k == i;
    }
  }

  lemma {:induction false} MaskValidFrom(s: string, i: nat)
    requires i <= |s| && ValidFrom(s, i)
    ensures ValidFrom(Mask(s), i)
    decreases |s| - i
  {
    if i < |s| {
      MaskValidFrom(s, i + CharLen(s, i));
      CharacterMaskedWhole(s, i);
      CharacterStaysValid(s, Mask(s), i, KeptAt(s, i));
    }
  }

  /** The mask of valid UTF-8 is valid UTF-8: the final conversion cannot fail. */
  lemma MaskStaysUtf8(s: string)
    requires Valid(s)
    ensures Valid(Mask(s))
  {
    MaskValidFrom(s, 0);
  }

  lemma {:induction false} MaskedTextIsCode(s: string, i: nat)
    requires i <= |s|
    ensures StateAt(Mask(s), i) == Code
    ensures i < |s| ==> KeptAt(Mask(s), i)
  {
    var m := Mask(s);
    if i > 0 { MaskedTextIsCode(s, i - 1); }
    if i < |s| {
      assert m[i] == MaskByte(s, i);
      assert i + 1 < |s| ==> m[i + 1] == MaskByte(s, i + 1);
      assert NextLex(Code, m[i], Ahead(m, i)) == Code;
    }
  }

  /** Masking twice is masking once. */
  lemma MaskIdempotent(s: string)
    ensures Mask(Mask(s)) == Mask(s)
  {
    forall i | 0 <= i < |s| ensures Mask(Mask(s))[i] == Mask(s)[i] { MaskedTextIsCode(s, i); }
  }

  // ----- the mask does not depend on what comments and literals say ------------------------

  /** Byte `k` of `y`, or `nx` just behind it. */
  function ByteAt(y: string, k: nat, nx: char): char { if k < |y| then y[k] else nx }

  /** The state after `y`, read from byte `k` in state `q` with `nx` following. */
  function Drive(q: Lex, y: string, k: nat, nx: char): Lex
    decreases |y| - k
  {
    if k >= |y| then q else Drive(NextLex(q, y[k], ByteAt(y, k + 1, nx)), y, k + 1, nx)
  }

  /** Read so, every byte of `y` is met inside a comment or literal. */
  predicate StaysInside(q: Lex, y: string, k: nat, nx: char)
    decreases |y| - k
  {
    k >= |y| || (q != Code && StaysInside(NextLex(q, y[k], ByteAt(y, k + 1, nx)), y, k + 1, nx))
  }

  /** The state in front of what follows `a`, which begins with `c`. */
  function Entry(a: string, c: char): Lex {
    if a == "" then Code else NextLex(StateAt(a, |a| - 1), a[|a| - 1], c)
  }

  function Blanks(y: string): (r: string)
    ensures |r| == |y| && forall i :: 0 <= i < |y| ==> r[i] == Blank(y[i])
  {
    seq(|y|, i requires 0 <= i < |y| => Blank(y[i]))
  }

  /** `x` lies inside one comment or literal of a + x + b, `y` would lie in the same one, and leaves it as `x` does. */
  ghost predicate Interchangeable(a: string, x: string, y: string, b: string) {
    var q, nx := Entry(a, ByteAt(x + b, 0, '\0')), ByteAt(b, 0, '\0');
    && Entry(a, ByteAt(y + b, 0, '\0')) == q
    && StaysInside(q, x, 0, nx) && StaysInside(q, y, 0, nx)
    && Drive(q, x, 0, nx) == Drive(q, y, 0, nx)
  }

  /** States look one byte ahead: texts that agree up to byte `i` agree on the state there. */
  lemma {:induction false} SameBefore(s: string, t: string, i: nat)
    requires i < |s| && i < |t| && forall k :: 0 <= k <= i ==> s[k] == t[k]
    ensures StateAt(s, i) == StateAt(t, i)
  {
    if i > 0 { SameBefore(s, t, i - 1); }
  }

  lemma EntryIsState(s: string, a: string)
    requires |a| <= |s| && forall k :: 0 <= k < |a| ==> s[k] == a[k]
    ensures StateAt(s, |a|) == Entry(a, ByteAt(s, |a|, '\0'))
  {
    if a != "" { SameBefore(s, a, |a| - 1); }
  }

  /** `y` stands in `s` from byte `p` on. */
  ghost predicate StandsAt(s: string, p: nat, y: string) {
    p + |y| <= |s| && forall k :: p <= k < p + |y| ==> s[k] == y[k - p]
  }

  /** The automaton over a stretch of a text is the automaton over the stretch alone. */
  lemma {:induction false} DriveIsState(s: string, p: nat, y: string, k: nat)
    requires StandsAt(s, p, y) && k <= |y|
    ensures StateAt(s, p + |y|) == Drive(StateAt(s, p + k), y, k, ByteAt(s, p + |y|, '\0'))
    decreases |y| - k
  {
    hide NextLex;
    if k < |y| {
      assert s[p + k] == y[k];
      assert k + 1 < |y| ==> s[p + k + 1] == y[k + 1];
      DriveIsState(s, p, y, k + 1);
    }
  }

  lemma {:induction false} InsideIsBlanked(s: string, p: nat, y: string, k: nat, i: nat)
    requires StandsAt(s, p, y) && k <= i < |y| && StaysInside(StateAt(s, p + k), y, k, ByteAt(s, p + |y|, '\0'))
    ensures MaskByte(s, p + i) == Blank(y[i])
    decreases i - k
  {
    assert s[p + k] == y[k];
    assert k + 1 < |y| ==> s[p + k + 1] == y[k + 1];
    if k < i { InsideIsBlanked(s, p, y, k + 1, i); }
  }

  /** The same bytes from `i` in `s` and from `j` in `t`. */
  ghost predicate SameTail(s: string, i: nat, t: string, j: nat) {
    i <= |s| && j <= |t| && |s| - i == |t| - j && forall k :: i <= k < |s| ==> s[k] == t[k - i + j]
  }

  /** From equal states on, equal text gives equal states. */
  lemma {:induction false} SameAfter(s: string, i: nat, t: string, j: nat, k: nat)
    requires SameTail(s, i, t, j) && i + k <= |s| && StateAt(s, i) == StateAt(t, j)
    ensures StateAt(s, i + k) == StateAt(t, j + k)
  {
    if k > 0 {
      SameAfter(s, i, t, j, k - 1);
      assert s[i + k - 1] == t[i + k - 1 - i + j];
      assert i + k < |s| ==> s[i + k] == t[i + k - i + j];
    }
  }

  /** A byte's mask follows from the byte and the states on either side of it. */
  lemma SameMaskByte(s: string, i: nat, t: string, j: nat)
    requires i < |s| && j < |t| && s[i] == t[j] && StateAt(s, i) == StateAt(t, j) && StateAt(s, i + 1) == StateAt(t, j + 1)
    ensures MaskByte(s, i) == MaskByte(t, j)
  {
  }

  lemma MaskBefore(s: string, t: string, a: string, i: nat)
    requires StandsAt(s, 0, a) && StandsAt(t, 0, a) && i < |a| && StateAt(s, |a|) == StateAt(t, |a|)
    ensures MaskByte(s, i) == MaskByte(t, i)
  {
    hide StateAt, MaskByte;
    SameBefore(s, t, i);
    if i + 1 < |a| { SameBefore(s, t, i + 1); }
    SameMaskByte(s, i, t, i);
  }

  lemma MaskAfter(s: string, i: nat, t: string, j: nat, k: nat, l: nat)
    requires SameTail(s, i, t, j) && i <= k < |s| && l == k - i + j && StateAt(s, i) == StateAt(t, j)
    ensures l < |t| && MaskByte(s, k) == MaskByte(t, l)
  {
    hide StateAt, MaskByte;
    SameAfter(s, i, t, j, k - i);
    SameAfter(s, i, t, j, k + 1 - i);
    assert s[k] == t[l];
    hide SameTail;
    SameMaskByte(s, k, t, l);
  }

  /** The states at the ends of an interchangeable stretch. */
  lemma StretchEnds(a: string, y: string, b: string, s: string)
    requires s == a + y + b
    ensures StandsAt(s, 0, a) && StandsAt(s, |a|, y)
    ensures ByteAt(s, |a| + |y|, '\0') == ByteAt(b, 0, '\0')
    ensures StateAt(s, |a|) == Entry(a, ByteAt(y + b, 0, '\0'))
    ensures StateAt(s, |a| + |y|) == Drive(Entry(a, ByteAt(y + b, 0, '\0')), y, 0, ByteAt(b, 0, '\0'))
  {
    hide StateAt, Entry, Drive;
    EntryIsState(s, a);
    assert ByteAt(s, |a|, '\0') == ByteAt(y + b, 0, '\0');
    DriveIsState(s, |a|, y, 0);
  }

  lemma PrefixMask(s: string, t: string, a: string)
    requires StandsAt(s, 0, a) && StandsAt(t, 0, a) && StateAt(s, |a|) == StateAt(t, |a|)
    ensures Mask(t)[..|a|] == Mask(s)[..|a|]
  {
    hide StateAt, MaskByte;
    MaskBytes(s);
    MaskBytes(t);
    forall k | 0 <= k < |a| ensures MaskByte(t, k) == MaskByte(s, k) { MaskBefore(t, s, a, k); }
  }

  lemma StretchMask(t: string, p: nat, y: string)
    requires StandsAt(t, p, y) && StaysInside(StateAt(t, p), y, 0, ByteAt(t, p + |y|, '\0'))
    ensures Mask(t)[p..p + |y|] == Blanks(y)
  {
    hide StateAt, StaysInside, MaskByte, ByteAt, Blank;
    MaskBytes(t);
    forall k | 0 <= k < |y| ensures Mask(t)[p + k] == Blank(y[k]) { InsideIsBlanked(t, p, y, 0, k); }
  }

  lemma SuffixMask(s: string, i: nat, t: string, j: nat)
    requires SameTail(s, i, t, j) && StateAt(s, i) == StateAt(t, j)
    ensures Mask(s)[i..] == Mask(t)[j..]
  {
    hide StateAt, MaskByte;
    MaskBytes(s);
    MaskBytes(t);
    var m, r := Mask(s)[i..], Mask(t)[j..];
    forall k | 0 <= k < |m| ensures m[k] == r[k] { MaskAfter(s, i, t, j, i + k, j + k); }
  }

  lemma MaskBytes(s: string)
    ensures |Mask(s)| == |s| && forall k :: 0 <= k < |s| ==> Mask(s)[k] == MaskByte(s, k)
  {
  }

  lemma Pieces(r: string, n: nat, j: nat)
    requires n <= j <= |r|
    ensures r == r[..n] + r[n..j] + r[j..]
  {
  }

  lemma MaskSpliced(s: string, i: nat, t: string, j: nat, a: string, y: string)
    requires |a| <= i <= |s| && j == |a| + |y| <= |t|
    requires StandsAt(s, 0, a) && StandsAt(t, 0, a) && StandsAt(t, |a|, y) && SameTail(t, j, s, i)
    requires StateAt(t, |a|) == StateAt(s, |a|) && StateAt(t, j) == StateAt(s, i)
    requires StaysInside(StateAt(t, |a|), y, 0, ByteAt(t, j, '\0'))
    ensures Mask(t) == Mask(s)[..|a|] + Blanks(y) + Mask(s)[i..]
  {
    assert |Mask(t)| == |t| && |Mask(s)| == |s|;
    hide StateAt, StaysInside, ByteAt, StandsAt, SameTail, Mask, Blanks;
    PrefixMask(s, t, a);
    StretchMask(t, |a|, y);
    SuffixMask(t, j, s, i);
    Pieces(Mask(t), |a|, j);
  }

  lemma TailsAgree(a: string, x: string, y: string, b: string)
    ensures SameTail(a + y + b, |a| + |y|, a + x + b, |a| + |x|)
  {
  }

  /** What a comment or literal says is masked by as many blanks, and nothing else of the mask changes. */
  lemma ContentIrrelevant(a: string, x: string, y: string, b: string)
    requires Interchangeable(a, x, y, b)
    ensures var m := Mask(a + x + b); Mask(a + y + b) == m[..|a|] + Blanks(y) + m[|a| + |x|..]
  {
    var s, t, i, j := a + x + b, a + y + b, |a| + |x|, |a| + |y|;
    StretchEnds(a, x, b, s);
    StretchEnds(a, y, b, t);
    TailsAgree(a, x, y, b);
    hide StateAt, StaysInside, Drive, Entry, Mask, StandsAt, ByteAt, SameTail, Blanks;
    MaskSpliced(s, i, t, j, a, y);
  }

  // ----- which texts are interchangeable -------------------------------------------------------

  /** Text of a line comment: no newline. */
  lemma {:induction false} LineText(y: string, k: nat, nx: char)
    requires '\n' !in y && k <= |y|
    ensures StaysInside(Line, y, k, nx) && Drive(Line, y, k, nx) == Line
    decreases |y| - k
  {
    if k < |y| { LineText(y, k + 1, nx); }
  }

  /** No comment delimiter starts in `y`, with `nx` following. */
  predicate NoDelimiter(y: string, nx: char) {
    forall i :: 0 <= i < |y| ==> !Opens(y[i], ByteAt(y, i + 1, nx)) && !Closes(y[i], ByteAt(y, i + 1, nx))
  }

  /** Text of a block comment at any depth: slashes and asterisks, but no delimiter. */
  lemma {:induction false} BlockText(d: nat, y: string, k: nat, nx: char)
    requires NoDelimiter(y, nx) && k <= |y|
    ensures StaysInside(Block(d), y, k, nx) && Drive(Block(d), y, k, nx) == Block(d)
    decreases |y| - k
  {
    if k < |y| { BlockText(d, y, k + 1, nx); }
  }

  /** From byte `k` on, every quote of `y` is one of a pair. */
  predicate QuotesDoubled(y: string, k: nat)
    decreases |y| - k
  {
    k >= |y| || (if y[k] == '\'' then k + 1 < |y| && y[k + 1] == '\'' && QuotesDoubled(y, k + 2) else QuotesDoubled(y, k + 1))
  }

  /** Text of a literal: any quotes doubled. */
  lemma {:induction false} LiteralText(y: string, k: nat, nx: char)
    requires QuotesDoubled(y, k) && k <= |y|
    ensures StaysInside(Literal, y, k, nx) && Drive(Literal, y, k, nx) == Literal
    decreases |y| - k
  {
    if k < |y| { LiteralText(y, if y[k] == '\'' then k + 2 else k + 1, nx); }
  }

  /** Plain content of a line comment, a block comment or a literal. */
  predicate MereText(q: Lex, y: string, nx: char) {
    match q
    case Line => '\n' !in y
    case Block(_) => NoDelimiter(y, nx)
    case Literal => QuotesDoubled(y, 0)
    case _ => false
  }

  /** So any content of a comment or literal may be reworded to any other, of any length. */
  lemma Reworded(a: string, q: Lex, x: string, y: string, b: string)
    requires Entry(a, ByteAt(x + b, 0, '\0')) == q == Entry(a, ByteAt(y + b, 0, '\0'))
    requires MereText(q, x, ByteAt(b, 0, '\0')) && MereText(q, y, ByteAt(b, 0, '\0'))
    ensures var m := Mask(a + x + b); Mask(a + y + b) == m[..|a|] + Blanks(y) + m[|a| + |x|..]
  {
    var nx := ByteAt(b, 0, '\0');
    hide Entry, Mask, NoDelimiter, QuotesDoubled, ByteAt;
    match q {
      case Line => LineText(x, 0, nx); LineText(y, 0, nx);
      case Block(d) => BlockText(d, x, 0, nx); BlockText(d, y, 0, nx);
      case Literal => LiteralText(x, 0, nx); LiteralText(y, 0, nx);
    }
    ContentIrrelevant(a, x, y, b);
  }

  /** Rewording that keeps length and newlines leaves the mask as it was. */
  lemma SameLayoutSameMask(a: string, x: string, y: string, b: string)
    requires Interchangeable(a, x, y, b) && Blanks(x) == Blanks(y)
    ensures Mask(a + x + b) == Mask(a + y + b)
  {
    ContentIrrelevant(a, x, y, b);
    ContentIrrelevant(a, x, x, b);
  }

  // ----- statements and line numbers ---------------------------------------------------------

  /** A `;`-delimited fragment and its byte offset. */
  datatype Fragment = Fragment(offset: nat, text: string) {
    function End(): nat { offset + |text| }
  }

  predicate EndsInSemicolon(f: Fragment) { f.text != "" && f.text[|f.text| - 1] == ';' }

  /** Fragment `f` of the text has its only `;` (if any) at its end. */
  ghost predicate IsFragment(text: string, f: Fragment) {
    && f.text != "" && f.End() <= |text| && f.text == text[f.offset..f.End()]
    && (forall j :: f.offset <= j < f.End() - 1 ==> text[j] != ';')
  }

  /** Where the first `k` fragments end. */
  function Reached(frags: seq<Fragment>, k: nat): nat
    requires k <= |frags|
  {
    if k == 0 then 0 else frags[k - 1].End()
  }

  function Covered(frags: seq<Fragment>): nat { Reached(frags, |frags|) }

  /** Fragments lie end to end from 0. */
  ghost predicate Contiguous(text: string, frags: seq<Fragment>) {
    forall k {:trigger IsFragment(text, frags[k])} :: 0 <= k < |frags| ==> IsFragment(text, frags[k]) && frags[k].offset == Reached(frags, k)
  }

  lemma EmptyContiguous(text: string)
    ensures Contiguous(text, [])
  {
  }

  lemma Extend(text: string, frags: seq<Fragment>, f: Fragment)
    requires Contiguous(text, frags) && IsFragment(text, f) && f.offset == Covered(frags)
    ensures Contiguous(text, frags + [f]) && Covered(frags + [f]) == f.End()
  {
    hide IsFragment;
  }

  /** A partition of the text that leaves out at most a blank tail. */
  ghost predicate Splits(text: string, frags: seq<Fragment>) {
    && Contiguous(text, frags) && Covered(frags) <= |text|
    && (forall k :: 0 <= k < |frags| - 1 ==> EndsInSemicolon(frags[k]))
    && (frags != [] && !EndsInSemicolon(frags[|frags| - 1]) ==> Covered(frags) == |text| && !IsBlank(frags[|frags| - 1].text))
    && IsBlank(text[Covered(frags)..]) && ';' !in text[Covered(frags)..]
  }

  /** `statements` */
  method Statements(masked: string) returns (frags: seq<Fragment>)
    ensures Splits(masked, frags)
  {
    hide Contiguous, SpaceLen;
    frags := [];
    EmptyContiguous(masked);
    var start := 0;
    for idx := 0 to |masked|
      invariant start <= idx && Contiguous(masked, frags) && Covered(frags) == start
      invariant forall k :: 0 <= k < |frags| ==> EndsInSemicolon(frags[k])
      invariant forall j :: start <= j < idx ==> masked[j] != ';'
    {
      if masked[idx] == ';' {
        var f := Fragment(start, masked[start..idx + 1]);
        Extend(masked, frags, f);
        frags := frags + [f];
        start := idx + 1;
      }
    }
    if !IsBlank(masked[start..]) {
      var f := Fragment(start, masked[start..]);
      assert f.text == masked[start..|masked|] && f.text != "";
      Extend(masked, frags, f);
      frags := frags + [f];
      assert masked[|masked|..] == "";
    }
  }

  /** A statement of the text, taken by itself: it starts the text or follows a `;`, and ends in the next `;`
      or, if not blank, at the end of the text. */
  ghost predicate IsStatement(text: string, f: Fragment) {
    && IsFragment(text, f) && (f.offset == 0 || text[f.offset - 1] == ';')
    && (EndsInSemicolon(f) || (f.End() == |text| && !IsBlank(f.text)))
  }

  lemma {:induction false} HolderOf(text: string, frags: seq<Fragment>, k: nat, p: nat) returns (j: nat)
    requires Contiguous(text, frags) && k <= |frags| && p < Reached(frags, k)
    ensures j < k && frags[j].offset <= p < frags[j].End()
  {
    hide IsFragment;
    assert IsFragment(text, frags[k - 1]);
    if p < frags[k - 1].offset { j := HolderOf(text, frags, k - 1, p); } else { j := k - 1; }
  }

  lemma {:induction false} StatementsAscend(text: string, frags: seq<Fragment>, i: nat, k: nat)
    requires Splits(text, frags) && i < k < |frags|
    ensures frags[i].offset < frags[k].offset
    decreases k
  {
    hide IsBlank, EndsInSemicolon;
    assert IsFragment(text, frags[k]) && IsFragment(text, frags[k - 1]);
    if i < k - 1 { StatementsAscend(text, frags, i, k - 1); }
  }

  lemma LastByte(text: string, f: Fragment)
    requires IsFragment(text, f) && EndsInSemicolon(f)
    ensures 0 < f.End() <= |text| && text[f.End() - 1] == ';'
  {
  }

  lemma FragmentIsStatement(text: string, frags: seq<Fragment>, k: nat)
    requires Splits(text, frags) && k < |frags|
    ensures IsStatement(text, frags[k])
  {
    hide IsFragment, IsBlank, EndsInSemicolon;
    assert IsFragment(text, frags[k]) && frags[k].offset == Reached(frags, k);
    if k > 0 { LastByte(text, frags[k - 1]); }
  }

  /** Two statements that start at the same byte are one. */
  lemma SameStart(text: string, f: Fragment, g: Fragment)
    requires IsStatement(text, f) && IsStatement(text, g) && f.offset == g.offset
    ensures f == g
  {
    StatementEnd(text, f, g);
    StatementEnd(text, g, f);
  }

  lemma StatementEnd(text: string, f: Fragment, g: Fragment)
    requires IsStatement(text, f) && IsStatement(text, g) && f.offset == g.offset
    ensures f.End() <= g.End()
  {
  }

  lemma StatementIsFound(text: string, frags: seq<Fragment>, f: Fragment)
    requires Splits(text, frags) && IsStatement(text, f)
    ensures f in frags
  {
    if f.offset < Covered(frags) {
      var j := HolderOf(text, frags, |frags|, f.offset);
      FragmentIsStatement(text, frags, j);
      assert f.offset == frags[j].offset;
      SameStart(text, f, frags[j]);
    } else {
      TailIsNoStatement(text, Covered(frags), f);
    }
  }

  lemma TailIsNoStatement(text: string, c: nat, f: Fragment)
    requires c <= |text| && IsBlank(text[c..]) && ';' !in text[c..] && c <= f.offset
    ensures !IsStatement(text, f)
  {
    hide IsBlank;
    assert forall k :: c <= k < |text| ==> text[k] == text[c..][k - c];
    if IsFragment(text, f) && (f.offset == 0 || text[f.offset - 1] == ';') {
      assert f.offset == c;
      assert f.End() == |text| ==> f.text == text[c..];
    }
  }

  /** The fragments are the statements, each of them. */
  lemma StatementsExact(text: string, frags: seq<Fragment>, f: Fragment)
    requires Splits(text, frags)
    ensures f in frags <==> IsStatement(text, f)
  {
    hide Splits, IsStatement;
    if k :| 0 <= k < |frags| && frags[k] == f { FragmentIsStatement(text, frags, k); }
    if IsStatement(text, f) { StatementIsFound(text, frags, f); }
  }

  function Newlines(s: string): nat {
    if s == "" then 0 else Newlines(s[..|s| - 1]) + if s[|s| - 1] == '\n' then 1 else 0
  }

  /** 1-based line of byte `pos`. */
  function LineOf(s: string, pos: nat): nat
    requires pos <= |s|
  {
    Newlines(s[..pos]) + 1
  }

  /** The newlines before byte `pos`. */
  ghost function NewlinesBefore(s: string, pos: nat): set<int>
    requires pos <= |s|
  {
    set i | 0 <= i < pos && s[i] == '\n'
  }

  /** A line number is one more than the number of newlines before the byte. */
  lemma {:induction false} LineCountsNewlines(s: string, pos: nat)
    requires pos <= |s|
    ensures LineOf(s, pos) == 1 + |NewlinesBefore(s, pos)|
  {
    if pos > 0 {
      LineCountsNewlines(s, pos - 1);
      var before, after := NewlinesBefore(s, pos - 1), NewlinesBefore(s, pos);
      assert s[..pos][..pos - 1] == s[..pos - 1];
      assert after == if s[pos - 1] == '\n' then before + {pos - 1} else before;
    } else {
      assert NewlinesBefore(s, pos) == {};
    }
  }

  lemma {:induction false} SameNewlines(a: string, b: string)
    requires |a| == |b| && forall i :: 0 <= i < |a| ==> (a[i] == '\n' <==> b[i] == '\n')
    ensures Newlines(a) == Newlines(b)
  {
    if a != "" { SameNewlines(a[..|a| - 1], b[..|b| - 1]); }
  }

  /** A position in a fragment of the mask is on the same line in the original file. */
  lemma FragmentLine(src: string, f: Fragment, at: nat)
    requires IsFragment(Mask(src), f) && at < |f.text|
    ensures f.offset + at < |src|
    ensures Mask(src)[f.offset + at] == f.text[at]
    ensures LineOf(Mask(src), f.offset + at) == LineOf(src, f.offset + at) == 1 + |NewlinesBefore(src, f.offset + at)|
  {
    MaskShape(src);
    LineCountsNewlines(src, f.offset + at);
    SameNewlines(Mask(src)[..f.offset + at], src[..f.offset + at]);
  }
}
