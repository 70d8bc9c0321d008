// Overflow-safe integer parsing, d4np_str_parse_int in d4np/str/parse.c, in the C locale.
module ParseInt {
  import opened Common
  import opened Words

  const INT64_MAX: int := 0x7FFF_FFFF_FFFF_FFFF
  const INT64_MIN: int := -INT64_MAX - 1

  datatype ParseResult = Parsed(v: int) | Failed(status: Status)

  predicate IsSpace(c: char) {
    c == ' ' || c == '\t' || c == '\n' || c == '\U{0B}' || c == '\U{0C}' || c == '\r'
  }

  function DigitValue(c: char): int {
    if '0' <= c <= '9' then c as int - '0' as int
    else if 'a' <= c <= 'z' then c as int - 'a' as int + 10
    else if 'A' <= c <= 'Z' then c as int - 'A' as int + 10
    else -1
  }

  predicate IsDigit(c: char, base: int) {
    0 <= DigitValue(c) < base
  }

  predicate IsSign(c: char) {
    c == '+' || c == '-'
  }

  // `0x` or `0X` at position `i`.
  predicate HexMark(s: string, i: nat) {
    i + 1 < |s| && s[i] == '0' && (s[i + 1] == 'x' || s[i + 1] == 'X')
  }

  // ---- the scan, position by position --------------------------------------------------------------

  function SkipSpace(s: string, i: nat): (j: nat)
    requires i <= |s|
    ensures i <= j <= |s|
    decreases |s| - i
  {
    if i < |s| && IsSpace(s[i]) then SkipSpace(s, i + 1) else i
  }

  function SignEnd(s: string, a: nat): (b: nat)
    requires a <= |s|
    ensures a <= b <= |s|
  {
    if a < |s| && IsSign(s[a]) then a + 1 else a
  }

  predicate Negative(s: string, a: nat) {
    a < |s| && s[a] == '-'
  }

  // Where the digits start and the base they are read in.
  function PrefixEnd(s: string, b: nat, base: int): (r: (nat, int))
    requires b <= |s|
    ensures b <= r.0 <= |s|
  {
    if base == 0 then
      if HexMark(s, b) then (b + 2, 16)
      else if b < |s| && s[b] == '0' then (b, 8)
      else (b, 10)
    else if base == 16 && HexMark(s, b) then (b + 2, 16)
    else (b, base)
  }

  function RunEnd(s: string, c: nat, base: int): (d: nat)
    requires c <= |s|
    ensures c <= d <= |s|
    decreases |s| - c
  {
    if c < |s| && IsDigit(s[c], base) then RunEnd(s, c + 1, base) else c
  }

  // The number a run of digits denotes.
  function Value(digits: string, base: int): int {
    if digits == [] then 0 else Value(digits[..|digits| - 1], base) * base + DigitValue(digits[|digits| - 1])
  }

  function Limit(negative: bool): int {
    if negative then INT64_MAX + 1 else INT64_MAX
  }

  predicate ValidBase(base: int) {
    base == 0 || 2 <= base <= 36
  }

  function Parse(s: string, base: int): ParseResult {
    var a := SkipSpace(s, 0);
    var negative := Negative(s, a);
    var (c, eff) := PrefixEnd(s, SignEnd(s, a), base);
    var d := RunEnd(s, c, eff);
    if !ValidBase(base) || d == c then Failed(INVALID_ARGUMENT)
    else
      var v := Value(s[c..d], eff);
      if v > Limit(negative) then Failed(OVERFLOW)
      else if SkipSpace(s, d) != |s| then Failed(INVALID_ARGUMENT)
      else Parsed(if negative then -v else v)
  }

  // ---- the code ----------------------------------------------------------------------------------

  method SkipSpaces(s: string, from: nat) returns (i: nat)
    requires from <= |s|
    ensures i == SkipSpace(s, from)
  {
    i := from;
    while i < |s| && IsSpace(s[i])
      invariant from <= i <= |s| && SkipSpace(s, i) == SkipSpace(s, from)
    {
      i := i + 1;
    }
  }

  // The accumulation loop: `None` for overflow, else the value of the run and where it ends.  The
  // 64-bit operations are written with their wrap-around, which never happens.
  method Accumulate(s: string, from: nat, base: int, negative: bool) returns (r: Option<nat>, i: nat)
    requires from <= |s| && 2 <= base <= 36
    ensures r == None <==> Value(s[from..RunEnd(s, from, base)], base) > Limit(negative)
    ensures r.Some? ==> i == RunEnd(s, from, base) && r.value == Value(s[from..i], base)
  {
    var limit: nat := Limit(negative);
    var acc: nat := 0;
    i := from;
    while i < |s|
      invariant from <= i <= |s| && RunEnd(s, i, base) == RunEnd(s, from, base)
      invariant acc == Value(s[from..i], base) && acc <= limit
    {
      var d := DigitValue(s[i]);
      if d < 0 || d >= base {
        break;
      }
      ValueStep(s, from, i, base);
      OverflowTest(acc, base, d, limit);
      if acc > ((limit - d) % WORD) / base {
        RunIsDigits(s, from, base);
        ValueMonotone(s, from, i + 1, RunEnd(s, from, base), base);
        return None, i;
      }
      acc := (acc * base + d) % WORD;
      i := i + 1;
    }
    r := Some(acc);
  }

  // The test before each step decides exactly whether the next value exceeds the limit.
  lemma OverflowTest(acc: nat, base: int, d: int, limit: nat)
    requires 2 <= base <= 36 && 0 <= d < base && INT64_MAX <= limit <= INT64_MAX + 1 && acc <= limit
    ensures (limit - d) % WORD == limit - d
    ensures acc > (limit - d) / base <==> acc * base + d > limit
    ensures acc * base + d <= limit ==> (acc * base + d) % WORD == acc * base + d
  {
    QuotientTest(acc, base, limit - d);
    SmallMod(limit - d, WORD);
    if acc * base + d <= limit {
      SmallMod(acc * base + d, WORD);
    }
  }

  lemma ValueStep(s: string, c: nat, i: nat, base: int)
    requires c <= i < |s|
    ensures Value(s[c..i + 1], base) == Value(s[c..i], base) * base + DigitValue(s[i])
  {
    assert s[c..i + 1][..i - c] == s[c..i];
  }

  lemma SingleDigit(s: string, c: nat, base: int)
    requires c < |s|
    ensures Value(s[c..c + 1], base) == DigitValue(s[c])
  {
    ValueStep(s, c, c, base);
  }

  lemma GrowsByDigit(w: int, base: int, d: int)
    requires w >= 0 && base >= 1 && d >= 0
    ensures w * base + d >= w
  {
  }

  lemma {:induction false} ValueMonotone(s: string, c: nat, i: nat, d: nat, base: int)
    requires c <= i <= d <= |s| && base >= 1
    requires forall k :: c <= k < d ==> IsDigit(s[k], base)
    ensures 0 <= Value(s[c..i], base) <= Value(s[c..d], base)
    decreases d
  {
    if d == c {
    } else {
      ValueMonotone(s, c, if i < d then i else d - 1, d - 1, base);
      ValueStep(s, c, d - 1, base);
      GrowsByDigit(Value(s[c..d - 1], base), base, DigitValue(s[d - 1]));
    }
  }

  lemma {:induction false} RunIsDigits(s: string, c: nat, base: int)
    requires c <= |s|
    ensures forall k :: c <= k < RunEnd(s, c, base) ==> IsDigit(s[k], base)
    ensures RunEnd(s, c, base) < |s| ==> !IsDigit(s[RunEnd(s, c, base)], base)
    decreases |s| - c
  {
    if c == |s| || !IsDigit(s[c], base) {
    } else {
      RunIsDigits(s, c + 1, base);
    }
  }

  // Skip a hexadecimal prefix and detect the base.
  method ScanPrefix(p: string, b: nat, base: int) returns (i: nat, eff: int)
    requires b <= |p|
    ensures (i, eff) == PrefixEnd(p, b, base)
  {
    var n := |p|;
    i := b;
    eff := base;
    if base == 0 {
      if i < n && p[i] == '0' {
        if i + 1 < n && (p[i + 1] == 'x' || p[i + 1] == 'X') {
          eff := 16;
          i := i + 2;
        } else {
          eff := 8;
        }
      } else {
        eff := 10;
      }
    } else if base == 16 && i + 1 < n && p[i] == '0' && (p[i + 1] == 'x' || p[i + 1] == 'X') {
      i := i + 2;
    }
  }

  // `sv` is `None` for a view with a NULL pointer; `hasOut` is false for a NULL result pointer.
  method ParseInteger(sv: Option<string>, base: int, hasOut: bool) returns (r: ParseResult)
    ensures r == if sv.None? || !hasOut then Failed(INVALID_ARGUMENT) else Parse(sv.value, base)
  {
    if !hasOut || sv.None? {
      return Failed(INVALID_ARGUMENT);
    }
    if base != 0 && (base < 2 || base > 36) {
      return Failed(INVALID_ARGUMENT);
    }
    var p, n := sv.value, |sv.value|;
    var i := SkipSpaces(p, 0);
    if i >= n {
      return Failed(INVALID_ARGUMENT);
    }
    var negative := false;
    if p[i] == '+' || p[i] == '-' {
      negative := p[i] == '-';
      i := i + 1;
    }
    var start, eff := ScanPrefix(p, i, base);
    var acc, end := Accumulate(p, start, eff, negative);
    if acc.None? {
      EmptyRunFits(p, start, eff, negative);
      return Failed(OVERFLOW);
    }
    if end == start {
      return Failed(INVALID_ARGUMENT);
    }
    var rest := SkipSpaces(p, end);
    if rest != n {
      return Failed(INVALID_ARGUMENT);
    }
    if negative {
      var magnitude: int := acc.value;
      r := Parsed(if magnitude == INT64_MAX + 1 then INT64_MIN else -magnitude);
    } else {
      r := Parsed(acc.value);
    }
  }

  lemma EmptyRunFits(s: string, c: nat, base: int, negative: bool)
    requires c <= |s|
    ensures RunEnd(s, c, base) == c ==> Value(s[c..RunEnd(s, c, base)], base) <= Limit(negative)
  {
  }

  // ---- the grammar -----------------------------------------------------------------------------------

  // Cut points of a numeral: white space up to `a`, a sign up to `b`, a prefix up to `c`, digits of
  // base `eff` up to `d`.
  ghost predicate Numeral(s: string, base: int, a: nat, b: nat, c: nat, d: nat, eff: int) {
    && a <= b <= c < d <= |s|
    && (forall k :: 0 <= k < a ==> IsSpace(s[k]))
    && (b == a || (b == a + 1 && IsSign(s[a])))
    && (c == b || (c == b + 2 && HexMark(s, b)))
    && (if base == 0 then eff == (if c > b then 16 else if s[c] == '0' then 8 else 10)
        else eff == base && (c > b ==> base == 16))
    && (forall k :: c <= k < d ==> IsDigit(s[k], eff))
  }

  ghost predicate OnlySpaceFrom(s: string, d: nat) {
    forall k :: d <= k < |s| ==> IsSpace(s[k])
  }

  // The digit run cannot be extended.
  predicate Maximal(s: string, d: nat, eff: int) {
    d < |s| ==> !IsDigit(s[d], eff)
  }

  function Signed(s: string, a: nat, v: int): int {
    if Negative(s, a) then -v else v
  }

  // `v` is the value of the whole of `s` read as white space, sign, prefix, digits, white space.
  ghost predicate Denotes(s: string, base: int, v: int) {
    exists a: nat, b: nat, c: nat, d: nat, eff ::
      && Numeral(s, base, a, b, c, d, eff)
      && OnlySpaceFrom(s, d)
      && v == Signed(s, a, Value(s[c..d], eff))
  }

  // Some prefix of `s` is a numeral whose maximal digit run exceeds the limit of its sign.
  ghost predicate ExceedsInt64(s: string, base: int) {
    exists a: nat, b: nat, c: nat, d: nat, eff ::
      && Numeral(s, base, a, b, c, d, eff)
      && Maximal(s, d, eff)
      && Value(s[c..d], eff) > Limit(Negative(s, a))
  }

  lemma {:induction false} SkipSpaceStops(s: string, i: nat, a: nat)
    requires i <= a <= |s| && forall k :: i <= k < a ==> IsSpace(s[k])
    requires a < |s| ==> !IsSpace(s[a])
    ensures SkipSpace(s, i) == a
    decreases a - i
  {
    if i == a {
    } else {
      SkipSpaceStops(s, i + 1, a);
    }
  }

  lemma {:induction false} SkipSpaceSkips(s: string, i: nat)
    requires i <= |s|
    ensures forall k :: i <= k < SkipSpace(s, i) ==> IsSpace(s[k])
    decreases |s| - i
  {
    if i == |s| || !IsSpace(s[i]) {
    } else {
      SkipSpaceSkips(s, i + 1);
    }
  }

  lemma {:induction false} RunStops(s: string, c: nat, d: nat, base: int)
    requires c <= d <= |s| && (forall k :: c <= k < d ==> IsDigit(s[k], base)) && Maximal(s, d, base)
    ensures RunEnd(s, c, base) == d
    decreases d - c
  {
    if c == d {
    } else {
      RunStops(s, c + 1, d, base);
    }
  }

  // The cut points are determined by the text: they are the ones the scan finds.  The one numeral
  // the scan reads differently is a lone zero in front of an `x`.
  lemma NumeralUnique(s: string, base: int, a: nat, b: nat, c: nat, d: nat, eff: int)
    requires ValidBase(base) && Numeral(s, base, a, b, c, d, eff) && Maximal(s, d, eff)
    requires c == b && HexMark(s, b) ==> d > c + 1
    ensures SkipSpace(s, 0) == a && SignEnd(s, a) == b && PrefixEnd(s, b, base) == (c, eff) && RunEnd(s, c, eff) == d
  {
    assert IsDigit(s[c], eff);
    SkipSpaceStops(s, 0, a);
    assert d > c + 1 ==> IsDigit(s[c + 1], eff);
    RunStops(s, c, d, eff);
  }

  lemma ScanIsNumeral(s: string, base: int)
    requires ValidBase(base)
    ensures var a := SkipSpace(s, 0); var b := SignEnd(s, a); var (c, eff) := PrefixEnd(s, b, base);
            var d := RunEnd(s, c, eff);
            d > c ==> Numeral(s, base, a, b, c, d, eff) && Maximal(s, d, eff)
  {
    SkipSpaceSkips(s, 0);
    var a := SkipSpace(s, 0);
    var b := SignEnd(s, a);
    var (c, eff) := PrefixEnd(s, b, base);
    RunIsDigits(s, c, eff);
  }

  lemma ParsedDenotes(s: string, base: int, v: int)
    requires ValidBase(base) && Parse(s, base) == Parsed(v)
    ensures Denotes(s, base, v) && INT64_MIN <= v <= INT64_MAX
  {
    ScanIsNumeral(s, base);
    var a := SkipSpace(s, 0);
    var (c, eff) := PrefixEnd(s, SignEnd(s, a), base);
    var d := RunEnd(s, c, eff);
    RunIsDigits(s, c, eff);
    ValueMonotone(s, c, c, d, eff);
    SkipSpaceSkips(s, d);
    assert OnlySpaceFrom(s, d);
    assert Numeral(s, base, a, SignEnd(s, a), c, d, eff);
  }

  lemma DenotedParses(s: string, base: int, a: nat, b: nat, c: nat, d: nat, eff: int)
    requires ValidBase(base) && Numeral(s, base, a, b, c, d, eff) && OnlySpaceFrom(s, d)
    requires INT64_MIN <= Signed(s, a, Value(s[c..d], eff)) <= INT64_MAX
    ensures Parse(s, base) == Parsed(Signed(s, a, Value(s[c..d], eff)))
  {
    assert d < |s| ==> IsSpace(s[d]);
    NumeralUnique(s, base, a, b, c, d, eff);
    SkipSpaceStops(s, d, |s|);
  }

  // OK with `v` exactly when the text denotes `v` and `v` is in range.
  lemma ParsedIffDenotes(s: string, base: int, v: int)
    requires ValidBase(base)
    ensures Parse(s, base) == Parsed(v) <==> Denotes(s, base, v) && INT64_MIN <= v <= INT64_MAX
  {
    if Parse(s, base) == Parsed(v) {
      ParsedDenotes(s, base, v);
    }
    if Denotes(s, base, v) && INT64_MIN <= v <= INT64_MAX {
      var a: nat, b: nat, c: nat, d: nat, eff :|
        Numeral(s, base, a, b, c, d, eff) && OnlySpaceFrom(s, d) && v == Signed(s, a, Value(s[c..d], eff));
      DenotedParses(s, base, a, b, c, d, eff);
    }
  }

  // OVERFLOW exactly when the maximal digit run exceeds the limit of its sign, whatever follows it.
  lemma OverflowIffExceeds(s: string, base: int)
    requires ValidBase(base)
    ensures Parse(s, base) == Failed(OVERFLOW) <==> ExceedsInt64(s, base)
  {
    if Parse(s, base) == Failed(OVERFLOW) {
      ScanIsNumeral(s, base);
    }
    if ExceedsInt64(s, base) {
      var a: nat, b: nat, c: nat, d: nat, eff :|
        Numeral(s, base, a, b, c, d, eff) && Maximal(s, d, eff) && Value(s[c..d], eff) > Limit(Negative(s, a));
      SingleDigit(s, c, eff);
      NumeralUnique(s, base, a, b, c, d, eff);
    }
  }

  // ---- round trip --------------------------------------------------------------------------------------

  function DigitChar(d: nat): (c: char)
    requires d < 36
    ensures DigitValue(c) == d
  {
    if d < 10 then (d + '0' as int) as char else (d - 10 + 'a' as int) as char
  }

  lemma QuotientSmaller(n: nat, base: nat)
    requires 2 <= base <= n
    ensures 0 < n / base < n && n == (n / base) * base + n % base
  {
    var q := n / base;
    MulMonotone(2, base, q);
    assert q == 0 ==> q * base == 0;
  }

  function Digits(n: nat, base: nat): (r: string)
    requires 2 <= base <= 36
    ensures |r| > 0
  {
    if n >= base then QuotientSmaller(n, base); Digits(n / base, base) + [DigitChar(n % base)] else [DigitChar(n)]
  }

  // The canonical numeral of `v`.
  function Render(v: int, base: nat): string
    requires 2 <= base <= 36
  {
    if v < 0 then "-" + Digits(-v, base) else Digits(v, base)
  }

  lemma {:induction false} DigitsDenote(n: nat, base: nat)
    requires 2 <= base <= 36
    ensures Value(Digits(n, base), base) == n
    ensures forall k :: 0 <= k < |Digits(n, base)| ==> IsDigit(Digits(n, base)[k], base)
    ensures Digits(n, base)[0] == '0' ==> n == 0
  {
    var r := Digits(n, base);
    if n < base {
      assert r[..|r| - 1] == [];
    } else {
      var q := n / base;
      QuotientSmaller(n, base);
      DigitsDenote(q, base);
      assert r[..|r| - 1] == Digits(q, base) && r[|r| - 1] == DigitChar(n % base);
    }
  }

  // Text consisting of a sign, an optional prefix and digits parses to what it denotes.
  lemma ExactNumeral(s: string, base: int, b: nat, c: nat, eff: int, v: int)
    requires ValidBase(base) && Numeral(s, base, 0, b, c, |s|, eff)
    requires v == Signed(s, 0, Value(s[c..], eff)) && INT64_MIN <= v <= INT64_MAX
    ensures Parse(s, base) == Parsed(v)
  {
    assert s[c..] == s[c..|s|];
    assert OnlySpaceFrom(s, |s|);
    ParsedIffDenotes(s, base, v);
  }

  // The canonical numeral of every 64-bit integer parses back, in every base.
  lemma RoundTrip(v: int, base: nat)
    requires 2 <= base <= 36 && INT64_MIN <= v <= INT64_MAX
    ensures Parse(Render(v, base), base) == Parsed(v)
  {
    var s := Render(v, base);
    var n: nat := if v < 0 then -v else v;
    DigitsDenote(n, base);
    if v < 0 {
      assert s[1..] == Digits(n, base);
      ExactNumeral(s, base, 1, 1, base, v);
    } else {
      assert s[0..] == Digits(n, base);
      assert IsDigit(s[0], base);
      ExactNumeral(s, base, 0, 0, base, v);
    }
  }

  // Decimal numerals also parse back with an auto-detected base.
  lemma RoundTripAuto(v: int)
    requires INT64_MIN <= v <= INT64_MAX
    ensures Parse(Render(v, 10), 0) == Parsed(v)
  {
    var s := Render(v, 10);
    var n: nat := if v < 0 then -v else v;
    DigitsDenote(n, 10);
    if v < 0 {
      assert s[1..] == Digits(n, 10);
      ExactNumeral(s, 0, 1, 1, 10, v);
    } else if v == 0 {
      assert s == "0" && s[0..] == "0";
      assert Value("0", 8) == Value("0"[..0], 8) * 8 + DigitValue('0');
      ExactNumeral(s, 0, 0, 0, 8, v);
    } else {
      assert s[0..] == Digits(n, 10);
      assert IsDigit(s[0], 10);
      ExactNumeral(s, 0, 0, 0, 10, v);
    }
  }
}
