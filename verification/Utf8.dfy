/** UTF-8 byte sequences (section 4 of RFC 3629) and the white space `str::trim` removes. */
module Utf8 {
  predicate In(c: char, lo: int, hi: int) { lo <= c as int <= hi }

  predicate Tail(s: string, i: nat) { i < |s| && In(s[i], 0x80, 0xBF) }

  /** Length of the well-formed character at `i`, or 0. */
  function CharLen(s: string, i: nat): (n: nat)
    requires i < |s|
    ensures i + n <= |s|
    ensures n >= 2 ==> forall k :: i <= k < i + n ==> s[k] as int >= 0x80
    ensures n == 1 <==> s[i] as int <= 0x7F
  {
    if In(s[i], 0x00, 0x7F) then 1
    else if In(s[i], 0xC2, 0xDF) && Tail(s, i + 1) then 2
    else if Tail(s, i + 1) && Tail(s, i + 2)
            && ((s[i] as int == 0xE0 && In(s[i + 1], 0xA0, 0xBF)) || In(s[i], 0xE1, 0xEC)
                || (s[i] as int == 0xED && In(s[i + 1], 0x80, 0x9F)) || In(s[i], 0xEE, 0xEF)) then 3
    else if Tail(s, i + 1) && Tail(s, i + 2) && Tail(s, i + 3)
            && ((s[i] as int == 0xF0 && In(s[i + 1], 0x90, 0xBF)) || In(s[i], 0xF1, 0xF3)
                || (s[i] as int == 0xF4 && In(s[i + 1], 0x80, 0x8F))) then 4
    else 0
  }

  // ----- against the encoding (section 3 of RFC 3629) -----------------------------------------

  predicate Scalar(c: nat) { c < 0xD800 || 0xE000 <= c < 0x110000 }

  function Encode(c: nat): (bytes: seq<int>)
    requires Scalar(c)
  {
    if c < 0x80 then [c]
    else if c < 0x800 then [0xC0 + c / 64, 0x80 + c % 64]
    else if c < 0x10000 then [0xE0 + c / 64 / 64, 0x80 + c / 64 % 64, 0x80 + c % 64]
    else [0xF0 + c / 64 / 64 / 64, 0x80 + c / 64 / 64 % 64, 0x80 + c / 64 % 64, 0x80 + c % 64]
  }

  /** Character `c` stands in `s` at byte `i`. */
  ghost predicate EncodedAt(s: string, i: nat, c: nat) {
    Scalar(c) && i + |Encode(c)| <= |s| && forall k :: 0 <= k < |Encode(c)| ==> s[i + k] as int == Encode(c)[k]
  }

  /** Where a character stands encoded, its length is found. */
  lemma CharLenOfEncoded(s: string, i: nat, c: nat)
    requires EncodedAt(s, i, c)
    ensures i < |s| && CharLen(s, i) == |Encode(c)|
  {
    var e := Encode(c);
    assert s[i + 0] as int == e[0];
    assert |e| >= 2 ==> s[i + 1] as int == e[1];
    assert |e| >= 3 ==> s[i + 2] as int == e[2];
    assert |e| >= 4 ==> s[i + 3] as int == e[3];
  }

  lemma Split64(q: nat, r: nat)
    requires r < 64
    ensures (q * 64 + r) / 64 == q && (q * 64 + r) % 64 == r
  {
  }

  /** The encoding of a scalar value given by its six-bit digits. */
  lemma EncodeTwo(a: nat, x: nat)
    requires x < 64 && 2 <= a < 32
    ensures Scalar(a * 64 + x) && Encode(a * 64 + x) == [0xC0 + a, 0x80 + x]
  {
    Split64(a, x);
  }

  lemma EncodeThree(a: nat, x: nat, y: nat)
    requires x < 64 && y < 64 && a < 16 && (a == 0 ==> x >= 32) && (a == 13 ==> x < 32)
    ensures var c := (a * 64 + x) * 64 + y; Scalar(c) && Encode(c) == [0xE0 + a, 0x80 + x, 0x80 + y]
  {
    Split64(a, x);
    Split64(a * 64 + x, y);
  }

  lemma EncodeFour(a: nat, x: nat, y: nat, z: nat)
    requires x < 64 && y < 64 && z < 64 && a < 5 && (a == 0 ==> x >= 16) && (a == 4 ==> x < 16)
    ensures var c := ((a * 64 + x) * 64 + y) * 64 + z; Scalar(c) && Encode(c) == [0xF0 + a, 0x80 + x, 0x80 + y, 0x80 + z]
  {
    Split64(a, x);
    Split64(a * 64 + x, y);
    Split64((a * 64 + x) * 64 + y, z);
  }

  /** Where a length is found, a character stands encoded. */
  lemma EncodedOfCharLen(s: string, i: nat) returns (c: nat)
    requires i < |s| && CharLen(s, i) > 0
    ensures EncodedAt(s, i, c) && |Encode(c)| == CharLen(s, i)
  {
    hide Encode, Scalar;
    var n, a := CharLen(s, i), s[i] as int;
    if n == 1 {
      c := a;
      EncodeOne(c);
      return;
    }
    var x := s[i + 1] as int - 0x80;
    if n == 2 {
      EncodeTwo(a - 0xC0, x);
      c := (a - 0xC0) * 64 + x;
      return;
    }
    var y := s[i + 2] as int - 0x80;
    if n == 3 {
      EncodeThree(a - 0xE0, x, y);
      c := ((a - 0xE0) * 64 + x) * 64 + y;
      return;
    }
    var z := s[i + 3] as int - 0x80;
    EncodeFour(a - 0xF0, x, y, z);
    c := (((a - 0xF0) * 64 + x) * 64 + y) * 64 + z;
  }

  lemma EncodeOne(c: nat)
    requires c < 0x80
    ensures Scalar(c) && Encode(c) == [c]
  {
  }

  /** The bytes from `i` on are well-formed UTF-8. */
  predicate ValidFrom(s: string, i: nat)
    requires i <= |s|
    decreases |s| - i
  {
    i == |s| || (CharLen(s, i) > 0 && ValidFrom(s, i + CharLen(s, i)))
  }

  predicate Valid(s: string) { ValidFrom(s, 0) }

  predicate Pair(s: string, i: nat, a: int, b: int) {
    i + 1 < |s| && s[i] as int == a && s[i + 1] as int == b
  }

  /** Length of the White_Space character at `i`, or 0. */
  function SpaceLen(s: string, i: nat): (n: nat)
    requires i < |s|
    ensures i + n <= |s|
    ensures n > 0 ==> s[i] != '$' && s[i] != ';'
    ensures n > 1 ==> forall k :: i <= k < i + n ==> s[k] as int >= 0x80
  {
    if In(s[i], 0x09, 0x0D) || s[i] == ' ' then 1
    else if Pair(s, i, 0xC2, 0x85) || Pair(s, i, 0xC2, 0xA0) then 2
    else if i + 2 < |s| &&
            (|| (Pair(s, i, 0xE1, 0x9A) && s[i + 2] as int == 0x80)
             || (Pair(s, i, 0xE2, 0x80) && (In(s[i + 2], 0x80, 0x8A) || In(s[i + 2], 0xA8, 0xA9) || s[i + 2] as int == 0xAF))
             || (Pair(s, i, 0xE2, 0x81) && s[i + 2] as int == 0x9F)
             || (Pair(s, i, 0xE3, 0x80) && s[i + 2] as int == 0x80)) then 3
    else 0
  }

  /** The White_Space property. */
  predicate IsWhite(c: nat) {
    || 0x09 <= c <= 0x0D || c == 0x20 || c == 0x85 || c == 0xA0 || c == 0x1680 || 0x2000 <= c <= 0x200A
    || c == 0x2028 || c == 0x2029 || c == 0x202F || c == 0x205F || c == 0x3000
  }

  /** White space is recognised exactly, character by character. */
  lemma SpaceLenExact(s: string, i: nat, c: nat)
    requires EncodedAt(s, i, c)
    ensures i < |s| && SpaceLen(s, i) == if IsWhite(c) then |Encode(c)| else 0
  {
    var e := Encode(c);
    assert s[i + 0] as int == e[0];
    assert |e| >= 2 ==> s[i + 1] as int == e[1];
    assert |e| >= 3 ==> s[i + 2] as int == e[2];
  }

  predicate BlankFrom(s: string, i: nat)
    requires i <= |s|
    decreases |s| - i
  {
    i == |s| || (SpaceLen(s, i) > 0 && BlankFrom(s, i + SpaceLen(s, i)))
  }

  /** `s.trim().is_empty()` */
  predicate IsBlank(s: string) { BlankFrom(s, 0) }

  /** ASCII text is blank if and only if it is spaces, tabs, line feeds, vertical tabs, form feeds and carriage returns. */
  lemma {:induction false} AsciiBlankIff(s: string, i: nat)
    requires i <= |s| && forall k :: i <= k < |s| ==> s[k] as int < 0x80
    ensures BlankFrom(s, i) <==> forall k :: i <= k < |s| ==> s[k] == ' ' || 9 <= s[k] as int <= 13
    decreases |s| - i
  {
    if i < |s| { AsciiBlankIff(s, i + 1); }
  }

  /** Text holding a dollar sign is not blank. */
  lemma {:induction false} DollarNotBlank(s: string, i: nat, k: nat)
    requires i <= k < |s| && s[k] == '$'
    ensures !BlankFrom(s, i)
    decreases |s| - i
  {
    if SpaceLen(s, i) > 0 && k >= i + SpaceLen(s, i) {
      DollarNotBlank(s, i + SpaceLen(s, i), k);
    }
  }
}
