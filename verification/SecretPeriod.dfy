/** The low-entropy check for signing secrets: how a repeated unit is found, and what repetition adds (nothing). */
module SecretPeriod {
  import opened Ascii

  /** The text agrees with itself shifted by `p`. */
  predicate HasPeriod(s: string, p: nat) {
    1 <= p <= |s| && forall i :: p <= i < |s| ==> s[i] == s[i - p]
  }

  /** The first period in q..|s|/2, or the whole length. */
  function UnitFrom(s: string, q: nat): (p: nat)
    requires q >= 1
    ensures p == |s| || (q <= p <= |s| / 2 && HasPeriod(s, p))
    ensures forall r :: q <= r <= |s| / 2 && HasPeriod(s, r) ==> p <= r
    decreases |s| - q
  {
    if q > |s| / 2 then |s| else if HasPeriod(s, q) then q else UnitFrom(s, q + 1)
  }

  function UnitLen(s: string): nat { UnitFrom(s, 1) }

  function Unit(s: string): string { s[..UnitLen(s)] }

  method Repeats(chars: string, period: nat) returns (r: bool)
    requires 1 <= period <= |chars|
    ensures r <==> HasPeriod(chars, period)
  {
    for k := 0 to |chars| - period
      invariant forall i :: period <= i < period + k ==> chars[i] == chars[i - period]
    {
      if chars[period + k] != chars[k] { return false; }
    }
    return true;
  }

  /** `repeating_unit_len` */
  method RepeatingUnitLen(chars: string) returns (p: nat)
    ensures p == UnitLen(chars)
  {
    for period := 1 to |chars| / 2 + 1
      invariant UnitLen(chars) == UnitFrom(chars, period)
    {
      var repeats := Repeats(chars, period);
      if repeats { return period; }
    }
    return |chars|;
  }

  // ----- periods ----------------------------------------------------------------------

  /** Fine and Wilf: two periods that fit side by side differ by a period. */
  lemma PeriodDifference(s: string, p: nat, q: nat)
    requires HasPeriod(s, p) && HasPeriod(s, q) && p < q && p + q <= |s|
    ensures HasPeriod(s, q - p)
  {
    forall i | q - p <= i < |s| ensures s[i] == s[i - (q - p)] {
      if i + p < |s| {
        assert s[i + p] == s[i + p - q] && s[i + p] == s[i];
      } else {
        assert s[i] == s[i - q] && s[i - q + p] == s[i - q];
      }
    }
  }

  /** Every period of at most half the length is a multiple of the unit's. */
  lemma {:induction false} PeriodsAreMultiples(s: string, q: nat)
    requires HasPeriod(s, q) && q <= |s| / 2
    ensures q % UnitLen(s) == 0
    decreases q
  {
    var p := UnitLen(s);
    assert 1 <= p <= q && HasPeriod(s, p);
    hide HasPeriod, UnitLen;
    if p < q {
      PeriodDifference(s, p, q);
      PeriodsAreMultiples(s, q - p);
      ModDrop(q, p);
    }
  }

  lemma MulAtLeast(m: nat, p: nat)
    requires m >= 1
    ensures m * p >= p
  {
  }

  lemma ModDrop(i: nat, p: nat)
    requires 1 <= p <= i
    ensures (i - p) % p == i % p
  {
    var m := i / p - (i - p) / p - 1;
    assert m * p == (i - p) % p - i % p;
    if m > 0 { MulAtLeast(m, p); } else if m < 0 { MulAtLeast(-m, p); }
  }

  /** `u` written over and over, to length `n`. */
  function Cycle(u: string, n: nat): string
    requires u != ""
  {
    seq(n, i requires 0 <= i < n => u[i % |u|])
  }

  lemma {:induction false} PeriodReaches(s: string, p: nat, i: nat)
    requires HasPeriod(s, p) && i < |s|
    ensures s[i] == s[i % p]
    decreases i
  {
    if i >= p {
      PeriodReaches(s, p, i - p);
      ModDrop(i, p);
    }
  }

  /** A secret is its unit repeated, the last copy possibly cut short. */
  lemma SecretIsUnitRepeated(s: string)
    requires s != ""
    ensures 1 <= UnitLen(s) <= |s| && s == Cycle(Unit(s), |s|)
  {
    var p := UnitLen(s);
    forall i | 0 <= i < |s| ensures s[i] == Unit(s)[i % p] { PeriodReaches(s, p, i); }
  }

  lemma CycleHasPeriod(u: string, n: nat)
    requires u != "" && |u| <= n
    ensures HasPeriod(Cycle(u, n), |u|) && Cycle(u, n)[..|u|] == u
  {
    forall i | |u| <= i < n ensures Cycle(u, n)[i] == Cycle(u, n)[i - |u|] { ModDrop(i, |u|); }
  }

  // ----- the unit is primitive -------------------------------------------------------------

  function Power(w: string, k: nat): string {
    if k == 0 then "" else w + Power(w, k - 1)
  }

  /** Not a shorter word written several times. */
  ghost predicate Primitive(u: string) {
    u != "" && forall w, k: nat :: k >= 2 ==> u != Power(w, k)
  }

  lemma {:induction false} PowerEnds(w: string, k: nat)
    requires k >= 1
    ensures Power(w, k) == Power(w, k - 1) + w
  {
    if k > 1 {
      PowerEnds(w, k - 1);
      assert w + (Power(w, k - 2) + w) == (w + Power(w, k - 2)) + w;
    } else {
      assert w + "" == "" + w;
    }
  }

  lemma {:induction false} PowerLonger(w: string, k: nat)
    requires k >= 2 && w != ""
    ensures 2 * |w| <= |Power(w, k)|
  {
    assert Power(w, k) == w + (w + Power(w, k - 2));
  }

  /** If a period's first stretch is a power, the base of the power is a period too. */
  lemma {:induction false} PowerPeriod(s: string, w: string, k: nat)
    requires w != "" && k >= 2 && HasPeriod(s, |Power(w, k)|) && s[..|Power(w, k)|] == Power(w, k)
    ensures HasPeriod(s, |w|)
  {
    var u := Power(w, k);
    PowerLonger(w, k);
    PowerEnds(w, k);
    assert u == w + Power(w, k - 1) == Power(w, k - 1) + w;
    forall i | |w| <= i < |s| ensures s[i] == s[i - |w|] { ShiftByBase(s, w, u, Power(w, k - 1), i); }
  }

  lemma {:induction false} ShiftByBase(s: string, w: string, u: string, v: string, i: nat)
    requires w != "" && u == w + v == v + w && HasPeriod(s, |u|) && s[..|u|] == u && |w| <= i < |s|
    ensures s[i] == s[i - |w|]
    decreases i
  {
    var p, q := |u|, |w|;
    if i < p {
      assert s[i] == u[i] == v[i - q] && s[i - q] == u[i - q] == v[i - q];
    } else if i < p + q {
      assert s[i] == s[i - p] == u[i - p] == w[i - p];
      assert s[i - q] == u[i - q] == w[i - q - |v|];
    } else {
      ShiftByBase(s, w, u, v, i - p);
      assert s[i] == s[i - p] && s[i - q] == s[i - q - p];
    }
  }

  lemma {:induction false} EmptyPower(k: nat)
    ensures Power("", k) == ""
  {
    if k > 0 { EmptyPower(k - 1); }
  }

  /** The unit is not itself a shorter word written several times. */
  lemma UnitIsPrimitive(s: string)
    requires s != ""
    ensures Primitive(Unit(s))
  {
    forall w, k: nat | k >= 2 ensures Unit(s) != Power(w, k) {
      if w == "" {
        EmptyPower(k);
      } else if Unit(s) == Power(w, k) {
        PowerLonger(w, k);
        PowerPeriod(s, w, k);
      }
    }
  }

  // ----- the unit and the secret have the same characters ------------------------------------------

  ghost predicate SameCharacters(s: string, t: string) {
    forall c :: c in s <==> c in t
  }

  lemma UnitHasSameCharacters(s: string)
    requires s != ""
    ensures SameCharacters(Unit(s), s)
  {
    SecretIsUnitRepeated(s);
    forall c | c in s ensures c in Unit(s) {
      var i :| 0 <= i < |s| && s[i] == c;
      assert Unit(s)[i % UnitLen(s)] == c;
    }
  }

  predicate All(s: string, test: char -> bool) { forall c :: c in s ==> test(c) }

  predicate IsHexDigit(c: char) { IsDigit(c) || 'a' <= c <= 'f' || 'A' <= c <= 'F' }

  predicate IsBase64Symbol(c: char) { c in "+/-_=" }

  /** `secret_alphabet_size` */
  function AlphabetSize(s: string): nat {
    if All(s, IsDigit) then 10
    else if All(s, IsHexDigit) then 16
    else
      (if exists c :: c in s && IsLower(c) then 26 else 0)
      + (if exists c :: c in s && IsUpper(c) then 26 else 0)
      + (if exists c :: c in s && IsDigit(c) then 10 else 0)
      + (if forall c :: c in s ==> IsAlphanumeric(c) then 0
         else if forall c :: c in s ==> IsAlphanumeric(c) || IsBase64Symbol(c) then 2
         else 33)
  }

  /** Digits count 10, hexadecimal digits of either case 16, letters of one case 26. */
  lemma PureAlphabets(s: string, letter: char)
    ensures All(s, IsDigit) ==> AlphabetSize(s) == 10
    ensures All(s, IsHexDigit) && letter in s && !IsDigit(letter) ==> AlphabetSize(s) == 16
    ensures (All(s, IsLower) || All(s, IsUpper)) && letter in s && !IsHexDigit(letter) ==> AlphabetSize(s) == 26
  {
  }

  /** With letters of both cases and digits: 62, with base64 symbols 64, with any other character 95. */
  lemma MixedAlphabets(s: string, lower: char, upper: char, digit: char)
    requires lower in s && IsLower(lower) && !IsHexDigit(lower) && upper in s && IsUpper(upper) && digit in s && IsDigit(digit)
    ensures All(s, IsAlphanumeric) ==> AlphabetSize(s) == 62
    ensures All(s, c => IsAlphanumeric(c) || IsBase64Symbol(c)) && !All(s, IsAlphanumeric) ==> AlphabetSize(s) == 64
    ensures !All(s, c => IsAlphanumeric(c) || IsBase64Symbol(c)) ==> AlphabetSize(s) == 95
  {
  }

  function Characters(s: string): set<char> { set c | c in s }

  /** Repetition changes neither the estimated alphabet nor the number of distinct characters. */
  lemma SameCharactersSameEstimate(s: string, t: string)
    requires SameCharacters(s, t)
    ensures AlphabetSize(s) == AlphabetSize(t)
    ensures Characters(s) == Characters(t)
  {
  }

  // ----- the verdict ----------------------------------------------------------------------------

  predicate IsRun(s: string, step: int) {
    forall i :: 1 <= i < |s| ==> s[i] as int - s[i - 1] as int == step
  }

  /** Bits estimated from a unit's length, alphabet and number of distinct characters. */
  type Estimate = (nat, nat, nat) -> real

  /** `is_low_entropy`, with the logarithmic estimate and its threshold as parameters. */
  predicate LowEntropy(s: string, bits: Estimate, least: real) {
    || s == ""
    || (|s| >= 2 && (IsRun(s, 1) || IsRun(s, -1)))
    || bits(|Unit(s)|, AlphabetSize(Unit(s)), |Characters(Unit(s))|) < least
  }

  /** Character `i` is `i` steps from the first one. */
  ghost predicate Counts(s: string, step: int) {
    forall i :: 0 <= i < |s| ==> s[i] as int == s[0] as int + i * step
  }

  lemma RunIffCounts(s: string, step: int)
    requires step == 1 || step == -1
    ensures IsRun(s, step) <==> Counts(s, step)
  {
    if IsRun(s, step) {
      forall i | 0 <= i < |s| ensures s[i] as int == s[0] as int + i * step { RunReaches(s, step, i); }
    }
    if Counts(s, step) {
      forall i | 1 <= i < |s| ensures s[i] as int - s[i - 1] as int == step { assert s[i] as int == s[0] as int + i * step; }
    }
  }

  /** A secret is weak if and only if it is empty, counts up or down by one throughout, or is estimated too low over the
      length of its unit and the alphabet and characters of the whole. */
  lemma WeakIff(s: string, bits: Estimate, least: real)
    ensures LowEntropy(s, bits, least) <==>
              || s == ""
              || (|s| >= 2 && (Counts(s, 1) || Counts(s, -1)))
              || bits(UnitLen(s), AlphabetSize(s), |Characters(s)|) < least
  {
    hide AlphabetSize, Characters, Counts, IsRun;
    RunIffCounts(s, 1);
    RunIffCounts(s, -1);
    if s != "" {
      SecretIsUnitRepeated(s);
      EstimateSeesWholeAlphabet(s);
    }
  }

  lemma {:induction false} PeriodIsPower(u: string, q: nat, k: nat)
    requires 1 <= q && |u| == k * q && (k == 0 || HasPeriod(u, q))
    ensures k > 0 ==> u == Power(u[..q], k)
    decreases k
  {
    if k == 1 {
      assert u == u[..q] + "";
    } else if k > 1 {
      var v := u[q..];
      assert |v| == (k - 1) * q;
      TailPeriod(u, q, v);
      PeriodIsPower(v, q, k - 1);
      assert v[..q] == u[..q] by { forall j | 0 <= j < q ensures v[j] == u[j] { assert u[q + j] == u[j]; } }
      assert u == u[..q] + v;
    }
  }

  lemma TailPeriod(u: string, q: nat, v: string)
    requires HasPeriod(u, q) && 2 * q <= |u| && v == u[q..]
    ensures HasPeriod(v, q)
  {
    forall i | q <= i < |v| ensures v[i] == v[i - q] { assert u[q + i] == u[q + i - q]; }
  }

  lemma PrefixPeriod(t: string, q: nat, u: string)
    requires HasPeriod(t, q) && q <= |u| <= |t| && t[..|u|] == u
    ensures HasPeriod(u, q)
  {
    forall i | q <= i < |u| ensures u[i] == u[i - q] { assert t[i] == t[i - q]; }
  }

  lemma NotPrimitive(u: string, q: nat)
    requires HasPeriod(u, q) && q < |u| && |u| % q == 0
    ensures !Primitive(u)
  {
    hide Power;
    var k := |u| / q;
    assert |u| == k * q + |u| % q;
    assert k >= 2;
    PeriodIsPower(u, q, k);
  }

  /** A primitive word written out at least twice is found again. */
  lemma UnitOfCycle(u: string, n: nat)
    requires Primitive(u) && 2 * |u| <= n
    ensures UnitLen(Cycle(u, n)) == |u| && Unit(Cycle(u, n)) == u
  {
    var t := Cycle(u, n);
    CycleHasPeriod(u, n);
    hide Cycle;
    var q := UnitLen(t);
    PeriodsAreMultiples(t, |u|);
    if q < |u| {
      PrefixPeriod(t, q, u);
      NotPrimitive(u, q);
    }
  }

  lemma RepeatedIsNoRun(s: string, p: nat, step: int)
    requires HasPeriod(s, p) && p < |s| && (step == 1 || step == -1)
    ensures !IsRun(s, step)
  {
    if IsRun(s, step) { RunReaches(s, step, p); }
  }

  lemma {:induction false} RunReaches(s: string, step: int, i: nat)
    requires IsRun(s, step) && i < |s|
    ensures s[i] as int == s[0] as int + i * step
  {
    if i > 0 { RunReaches(s, step, i - 1); }
  }

  /** However often a repeated unit is written out, the verdict is the same. */
  lemma RepetitionAddsNothing(s: string, n: nat, bits: Estimate, least: real)
    requires s != "" && 2 * UnitLen(s) <= |s| && 2 * UnitLen(s) <= n
    ensures LowEntropy(Cycle(Unit(s), n), bits, least) == LowEntropy(s, bits, least)
  {
    var t := Cycle(Unit(s), n);
    UnitIsPrimitive(s);
    UnitOfCycle(Unit(s), n);
    CycleHasPeriod(Unit(s), n);
    RepeatedIsNoRun(s, UnitLen(s), 1);
    RepeatedIsNoRun(s, UnitLen(s), -1);
    RepeatedIsNoRun(t, UnitLen(s), 1);
    RepeatedIsNoRun(t, UnitLen(s), -1);
  }

  /** The estimate over the unit uses the alphabet and the distinct characters of the whole secret. */
  lemma EstimateSeesWholeAlphabet(s: string)
    requires s != ""
    ensures AlphabetSize(Unit(s)) == AlphabetSize(s) && Characters(Unit(s)) == Characters(s)
  {
    UnitHasSameCharacters(s);
    SameCharactersSameEstimate(Unit(s), s);
  }
}
