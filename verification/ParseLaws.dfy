// What d4np_str_parse_int in d4np/str/parse.c accepts, spelled out: the characters it knows, every
// way of writing a number, and the answers it can give.
module ParseLaws {
  import opened Common
  import opened ParseInt

  const LOWER: string := "0123456789abcdefghijklmnopqrstuvwxyz"
  const UPPER: string := "0123456789ABCDEFGHIJKLMNOPQRSTUVWXYZ"
  const SPACES: string := " \t\n\U{0B}\U{0C}\r"

  // The digits are those of the two alphabets, in order.
  lemma DigitTable(c: char, k: int)
    requires 0 <= k < 36
    ensures |LOWER| == |UPPER| == 36
    ensures DigitValue(c) == k <==> c == LOWER[k] || c == UPPER[k]
    ensures DigitValue(c) < 36 && (DigitValue(c) < 0 ==> c != LOWER[k] && c != UPPER[k])
  {
    LowerAlphabet(k);
    UpperAlphabet(k);
  }

  lemma LowerAlphabet(k: int)
    requires 0 <= k < 36
    ensures |LOWER| == 36
    ensures LOWER[k] == if k < 10 then (k + '0' as int) as char else (k - 10 + 'a' as int) as char
  {
  }

  lemma UpperAlphabet(k: int)
    requires 0 <= k < 36
    ensures |UPPER| == 36
    ensures UPPER[k] == if k < 10 then (k + '0' as int) as char else (k - 10 + 'A' as int) as char
  {
  }

  lemma SpaceTable(c: char)
    ensures IsSpace(c) <==> c in SPACES
  {
    assert SPACES == [' ', '\t', '\n', '\U{0B}', '\U{0C}', '\r'];
  }

  // ---- upper and lower case ----------------------------------------------------------------------------

  function LowerChar(c: char): char {
    if 'A' <= c <= 'Z' then (c as int + 32) as char else c
  }

  function Lowered(s: string): (r: string)
    ensures |r| == |s|
  {
    seq(|s|, i requires 0 <= i < |s| => LowerChar(s[i]))
  }

  lemma LowerCharReads(c: char)
    ensures DigitValue(LowerChar(c)) == DigitValue(c) && IsSpace(LowerChar(c)) == IsSpace(c)
    ensures LowerChar(c) == '+' <==> c == '+'
    ensures LowerChar(c) == '-' <==> c == '-'
    ensures LowerChar(c) == '0' <==> c == '0'
    ensures LowerChar(c) == 'x' <==> c == 'x' || c == 'X'
    ensures LowerChar(c) != 'X'
  {
  }

  lemma {:induction false} LoweredSpace(s: string, i: nat)
    requires i <= |s|
    ensures SkipSpace(Lowered(s), i) == SkipSpace(s, i)
    decreases |s| - i
  {
    if i == |s| {
    } else {
      LowerCharReads(s[i]);
      LoweredSpace(s, i + 1);
    }
  }

  lemma {:induction false} LoweredRun(s: string, c: nat, base: int)
    requires c <= |s|
    ensures RunEnd(Lowered(s), c, base) == RunEnd(s, c, base)
    decreases |s| - c
  {
    if c == |s| {
    } else {
      LowerCharReads(s[c]);
      LoweredRun(s, c + 1, base);
    }
  }

  lemma {:induction false} LoweredValue(s: string, base: int)
    ensures Value(Lowered(s), base) == Value(s, base)
  {
    if s == [] {
    } else {
      var n := |s| - 1;
      LowerCharReads(s[n]);
      LoweredValue(s[..n], base);
      assert Lowered(s)[..n] == Lowered(s[..n]);
    }
  }

  lemma LoweredPrefix(s: string, a: nat, base: int)
    requires a <= |s|
    ensures Negative(Lowered(s), a) == Negative(s, a) && SignEnd(Lowered(s), a) == SignEnd(s, a)
    ensures PrefixEnd(Lowered(s), a, base) == PrefixEnd(s, a, base)
  {
    if a < |s| {
      LowerCharReads(s[a]);
    }
    if a + 1 < |s| {
      LowerCharReads(s[a + 1]);
    }
  }

  // Upper and lower case read alike, digits and prefixes both.
  lemma IgnoresCase(s: string, base: int)
    ensures Parse(Lowered(s), base) == Parse(s, base)
  {
    var a := SkipSpace(s, 0);
    LoweredSpace(s, 0);
    LoweredPrefix(s, a, base);
    var b := SignEnd(s, a);
    LoweredPrefix(s, b, base);
    var (c, eff) := PrefixEnd(s, b, base);
    LoweredRun(s, c, eff);
    var d := RunEnd(s, c, eff);
    LoweredSpace(s, d);
    LoweredSlice(s, c, d, eff);
  }

  lemma LoweredSlice(s: string, c: nat, d: nat, base: int)
    requires c <= d <= |s|
    ensures Value(Lowered(s)[c..d], base) == Value(s[c..d], base)
  {
    LoweredValue(s[c..d], base);
    assert Lowered(s)[c..d] == Lowered(s[c..d]);
  }

  // ---- every way of writing a number ---------------------------------------------------------------------

  predicate Blank(s: string) {
    forall k :: 0 <= k < |s| ==> s[k] in SPACES
  }

  // A base asked for, a prefix, and the base in which the digits of `n` are then written.
  predicate Notation(given: int, mark: string, eff: nat, n: nat) {
    || (2 <= given <= 36 && mark == "" && eff == given)
    || (given == 16 && (mark == "0x" || mark == "0X") && eff == 16)
    || (given == 0 && (mark == "0x" || mark == "0X") && eff == 16)
    || (given == 0 && mark == "0" && eff == 8)
    || (given == 0 && mark == "" && eff == 10 && n > 0)
  }

  function Written(pre: string, sign: string, mark: string, n: nat, eff: nat, post: string): string
    requires 2 <= eff <= 36
  {
    pre + sign + mark + Digits(n, eff) + post
  }

  // The digits, with the leading zero of an octal numeral.
  function DigitPart(mark: string, n: nat, eff: nat): string
    requires 2 <= eff <= 36
  {
    if mark == "0" then "0" + Digits(n, eff) else Digits(n, eff)
  }

  lemma {:induction false} LeadingZero(ds: string, base: int)
    ensures Value("0" + ds, base) == Value(ds, base)
  {
    if ds == [] {
      assert "0" + ds == "0" && "0"[..0] == [];
    } else {
      var n := |ds| - 1;
      LeadingZero(ds[..n], base);
      assert ("0" + ds)[..n + 1] == "0" + ds[..n];
    }
  }

  lemma DigitPartDenotes(mark: string, n: nat, eff: nat)
    requires 2 <= eff <= 36
    ensures var ds := DigitPart(mark, n, eff);
            && |ds| > 0 && Value(ds, eff) == n && (forall k :: 0 <= k < |ds| ==> IsDigit(ds[k], eff))
            && (mark == "0" ==> ds[0] == '0') && (mark != "0" && ds[0] == '0' ==> n == 0 && ds == "0")
  {
    DigitsDenote(n, eff);
    LeadingZero(Digits(n, eff), eff);
    if n == 0 {
      assert Digits(0, eff) == "0";
    }
  }

  // Where the parts of a written number are.
  lemma WrittenParts(pre: string, sign: string, mark: string, n: nat, eff: nat, post: string)
    returns (s: string, a: nat, b: nat, c: nat, d: nat)
    requires 2 <= eff <= 36 && (mark == "" || mark == "0" || mark == "0x" || mark == "0X")
    ensures s == Written(pre, sign, mark, n, eff, post) && a == |pre| && b == a + |sign|
    ensures c == b + (if mark == "0x" || mark == "0X" then 2 else 0)
    ensures a <= b <= c < d <= |s| && s[..a] == pre && s[a..b] == sign && s[d..] == post
    ensures s[b..c] == (if mark == "0x" || mark == "0X" then mark else "")
    ensures s[c..d] == DigitPart(mark, n, eff)
  {
    var ds := DigitPart(mark, n, eff);
    var hex := if mark == "0x" || mark == "0X" then mark else "";
    s := Written(pre, sign, mark, n, eff, post);
    a := |pre|;
    b := a + |sign|;
    c := b + |hex|;
    d := c + |ds|;
    assert s == pre + sign + hex + ds + post;
    FiveParts(pre, sign, hex, ds, post);
  }

  lemma FiveParts(p: string, q: string, r: string, t: string, u: string)
    ensures var s := p + q + r + t + u;
            var a, b, c, d := |p|, |p| + |q|, |p| + |q| + |r|, |p| + |q| + |r| + |t|;
            && |s| == d + |u| && s[..a] == p && s[a..b] == q && s[b..c] == r && s[c..d] == t && s[d..] == u
  {
    var s := p + q + r + t + u;
    assert s == p + q + (r + t + u);
    Middle(p, q, r + t + u);
    assert s == (p + q) + r + (t + u);
    Middle(p + q, r, t + u);
    Middle(p + q + r, t, u);
  }

  lemma Middle(x: string, y: string, z: string)
    ensures var s := x + y + z; s[..|x|] == x && s[|x|..|x| + |y|] == y && s[|x| + |y|..] == z
  {
  }

  lemma WrittenIsNumeral(pre: string, sign: string, mark: string, n: nat, given: int, eff: nat, post: string)
    returns (s: string, a: nat, b: nat, c: nat, d: nat)
    requires Blank(pre) && Blank(post) && (sign == "" || sign == "+" || sign == "-")
    requires 2 <= eff <= 36 && Notation(given, mark, eff, n)
    ensures s == Written(pre, sign, mark, n, eff, post) && Numeral(s, given, a, b, c, d, eff)
    ensures OnlySpaceFrom(s, d) && Maximal(s, d, eff) && Value(s[c..d], eff) == n
    ensures Negative(s, a) <==> sign == "-"
  {
    s, a, b, c, d := WrittenParts(pre, sign, mark, n, eff, post);
    DigitPartDenotes(mark, n, eff);
    BlankIsSpace(s, 0, a, pre);
    BlankIsSpace(s, d, |s|, post);
    assert s[d..|s|] == post && s[0..a] == pre;
    DigitsAt(s, c, d, eff);
    MarkAt(s, b, c, mark);
    FirstDigit(s, c, d, mark, n, eff);
    SignAt(s, a, b, sign);
  }

  lemma SignAt(s: string, a: nat, b: nat, sign: string)
    requires a <= b < |s| && s[a..b] == sign && (sign == "" || sign == "+" || sign == "-") && s[b] != '-'
    ensures b == a || (b == a + 1 && IsSign(s[a]))
    ensures Negative(s, a) <==> sign == "-"
  {
    assert b > a ==> s[a] == s[a..b][0];
  }

  lemma MarkAt(s: string, b: nat, c: nat, mark: string)
    requires b <= c < |s| && s[b..c] == (if mark == "0x" || mark == "0X" then mark else "")
    ensures if mark == "0x" || mark == "0X" then c == b + 2 && HexMark(s, b) else c == b
  {
    if mark == "0x" || mark == "0X" {
      assert s[b] == s[b..c][0] && s[b + 1] == s[b..c][1];
    }
  }

  lemma FirstDigit(s: string, c: nat, d: nat, mark: string, n: nat, eff: nat)
    requires c < d <= |s| && 2 <= eff <= 36 && s[c..d] == DigitPart(mark, n, eff)
    ensures s[c] != '-' && (mark == "0" ==> s[c] == '0') && (mark != "0" && n > 0 ==> s[c] != '0')
  {
    DigitPartDenotes(mark, n, eff);
    assert s[c] == s[c..d][0];
    assert IsDigit(s[c], eff);
  }

  lemma BlankIsSpace(s: string, i: nat, j: nat, blank: string)
    requires i <= j <= |s| && s[i..j] == blank && Blank(blank)
    ensures forall k :: i <= k < j ==> IsSpace(s[k])
  {
    forall k | i <= k < j
      ensures IsSpace(s[k])
    {
      assert s[k] == blank[k - i];
      SpaceTable(s[k]);
    }
  }

  lemma DigitsAt(s: string, c: nat, d: nat, base: int)
    requires c <= d <= |s| && forall k :: 0 <= k < d - c ==> IsDigit(s[c..d][k], base)
    ensures forall k :: c <= k < d ==> IsDigit(s[k], base)
  {
    forall k | c <= k < d
      ensures IsDigit(s[k], base)
    {
      assert s[k] == s[c..d][k - c];
    }
  }

  // White space, a sign, a prefix, digits and white space: every number written so is read back, and
  // reported as an overflow exactly when it is out of range.
  lemma ReadsWhatIsWritten(pre: string, sign: string, mark: string, n: nat, given: int, eff: nat, post: string)
    requires Blank(pre) && Blank(post) && (sign == "" || sign == "+" || sign == "-")
    requires 2 <= eff <= 36 && Notation(given, mark, eff, n)
    ensures var v := if sign == "-" then -(n as int) else n as int;
            Parse(Written(pre, sign, mark, n, eff, post), given) ==
            if -0x8000_0000_0000_0000 <= v <= 0x7FFF_FFFF_FFFF_FFFF then Parsed(v) else Failed(OVERFLOW)
  {
    var s, a, b, c, d := WrittenIsNumeral(pre, sign, mark, n, given, eff, post);
    if n <= Limit(sign == "-") {
      DenotedParses(s, given, a, b, c, d, eff);
    } else {
      assert ExceedsInt64(s, given);
      OverflowIffExceeds(s, given);
    }
  }

  // Any other text, and any other base, is an invalid argument.
  lemma OtherwiseInvalid(s: string, base: int)
    ensures base != 0 && (base < 2 || base > 36) ==> Parse(s, base) == Failed(INVALID_ARGUMENT)
    ensures ValidBase(base) && !ExceedsInt64(s, base) &&
            (forall v :: INT64_MIN <= v <= INT64_MAX ==> !Denotes(s, base, v)) ==>
              Parse(s, base) == Failed(INVALID_ARGUMENT)
  {
    if ValidBase(base) {
      OverflowIffExceeds(s, base);
      match Parse(s, base)
      case Parsed(v) => ParsedIffDenotes(s, base, v);
      case Failed(_) =>
    }
  }
}
