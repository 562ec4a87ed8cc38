/**
 * ASCII models of the Python string built-ins the application relies on:
 * `str.strip`, `str.lower`, `str.isalnum`, `str.split(sep)`, `str.replace`,
 * `str(n)` for integers, `int(s)` and `decimal.Decimal(s)`.
 */
module Text {
  import opened Wrappers

  // ---------------------------------------------------------------------------
  // Character classes
  // ---------------------------------------------------------------------------

  /** Python's `str.isspace` restricted to ASCII: \t \n \v \f \r, the four
      separator controls 0x1C-0x1F, and the space. */
  predicate IsSpace(c: char) {
    c == ' ' || 9 <= c as int <= 13 || 28 <= c as int <= 31
  }

  predicate IsDigit(c: char) {
    '0' <= c <= '9'
  }

  predicate IsUpper(c: char) {
    'A' <= c <= 'Z'
  }

  /** Python's `str.isalnum` restricted to ASCII. */
  predicate IsAlnum(c: char) {
    IsDigit(c) || IsUpper(c) || 'a' <= c <= 'z'
  }

  predicate AllDigits(s: string) {
    forall i :: 0 <= i < |s| ==> IsDigit(s[i])
  }

  function LowerChar(c: char): (d: char)
    ensures !IsUpper(d)
    ensures IsSpace(d) <==> IsSpace(c)
    ensures IsUpper(c) || d == c
  {
    if IsUpper(c) then (c as int + 32) as char else c
  }

  // ---------------------------------------------------------------------------
  // str.lower and str.strip
  // ---------------------------------------------------------------------------

  /** `s.lower()`: every upper-case letter is mapped to its lower-case form. */
  function Lower(s: string): (r: string)
    ensures |r| == |s|
    ensures forall i :: 0 <= i < |s| ==> r[i] == LowerChar(s[i])
  {
    if s == [] then [] else [LowerChar(s[0])] + Lower(s[1..])
  }

  /** Leading whitespace removed. */
  function TrimLeft(s: string): (r: string)
    ensures |r| <= |s|
  {
    if |s| > 0 && IsSpace(s[0]) then TrimLeft(s[1..]) else s
  }

  /** What `TrimLeft` keeps is a suffix starting with a non-space, and what it
      drops is whitespace. */
  lemma {:induction false} TrimLeftSpec(s: string)
    ensures var r := TrimLeft(s);
      && r == s[|s| - |r|..]
      && (r == [] || !IsSpace(r[0]))
      && forall i :: 0 <= i < |s| - |r| ==> IsSpace(s[i])
    decreases |s|
  {
    if |s| > 0 && IsSpace(s[0]) {
      TrimLeftSpec(s[1..]);
      var r := TrimLeft(s);
      assert s[1..][|s| - 1 - |r|..] == s[|s| - |r|..];
      forall i | 1 <= i < |s| - |r| ensures IsSpace(s[i]) {
        assert s[i] == s[1..][i - 1];
      }
    }
  }

  /** Trailing whitespace removed. */
  function TrimRight(s: string): (r: string)
    ensures |r| <= |s|
  {
    if |s| > 0 && IsSpace(s[|s| - 1]) then TrimRight(s[..|s| - 1]) else s
  }

  /** What `TrimRight` keeps is a prefix ending in a non-space, and what it
      drops is whitespace. */
  lemma {:induction false} TrimRightSpec(s: string)
    ensures var r := TrimRight(s);
      && r == s[..|r|]
      && (r == [] || !IsSpace(r[|r| - 1]))
      && forall i :: |r| <= i < |s| ==> IsSpace(s[i])
    decreases |s|
  {
    if |s| > 0 && IsSpace(s[|s| - 1]) {
      TrimRightSpec(s[..|s| - 1]);
      var r := TrimRight(s);
      assert s[..|s| - 1][..|r|] == s[..|r|];
      forall i | |r| <= i < |s| - 1 ensures IsSpace(s[i]) {
        assert s[i] == s[..|s| - 1][i];
      }
    }
  }

  /** `s.strip()`: whitespace removed at both ends. */
  function Strip(s: string): (r: string)
    ensures |r| <= |s|
    ensures r != [] ==> !IsSpace(r[0]) && !IsSpace(r[|r| - 1])
  {
    TrimLeftSpec(s);
    TrimRightSpec(TrimLeft(s));
    TrimRight(TrimLeft(s))
  }

  /** What `strip` keeps is the slice of `s` between its leading and its
      trailing whitespace. */
  lemma StripIsPaddedSlice(s: string)
    ensures StripStart(s) + |Strip(s)| <= |s|
    ensures Strip(s) == s[StripStart(s)..StripStart(s) + |Strip(s)|]
    ensures Padding(s, StripStart(s), |Strip(s)|)
  {
    var l := TrimLeft(s);
    var r := TrimRight(l);
    var k := StripStart(s);
    TrimLeftSpec(s);
    TrimRightSpec(l);
    assert l == s[k..];
    assert r == l[..|r|];
    assert r == s[k..k + |r|];
    forall i | k + |r| <= i < |s| ensures IsSpace(s[i]) {
      assert s[i] == l[i - k];
    }
  }

  /** A string consisting only of whitespace. */
  predicate Blank(s: string) {
    forall i :: 0 <= i < |s| ==> IsSpace(s[i])
  }

  /** `s.strip()` is empty exactly when `s` is blank. */
  lemma StripEmptyIffBlank(s: string)
    ensures Strip(s) == [] <==> Blank(s)
  {
    var r := Strip(s);
    StripIsPaddedSlice(s);
    if r != [] {
      assert s[StripStart(s)] == r[0];
    }
  }

  /** The number of leading whitespace characters of `s`. */
  function StripStart(s: string): nat
  {
    |s| - |TrimLeft(s)|
  }

  /** Everything in `s` outside the slice `s[k..k + n]` is whitespace. */
  predicate Padding(s: string, k: nat, n: nat)
    requires k + n <= |s|
  {
    (forall i :: 0 <= i < k ==> IsSpace(s[i])) && (forall i :: k + n <= i < |s| ==> IsSpace(s[i]))
  }

  /** A string without surrounding whitespace is left alone by `strip`. */
  lemma StripUnchanged(s: string)
    requires s == [] || (!IsSpace(s[0]) && !IsSpace(s[|s| - 1]))
    ensures Strip(s) == s
  {
  }

  /** `strip` is idempotent. */
  lemma StripIdempotent(s: string)
    ensures Strip(Strip(s)) == Strip(s)
  {
    StripUnchanged(Strip(s));
  }

  /** A lower-cased, stripped, non-blank string has no surrounding whitespace
      and no upper-case letter. */
  lemma LowerStripped(s: string)
    requires Strip(s) != []
    ensures var r := Lower(Strip(s));
            r != [] && !IsSpace(r[0]) && !IsSpace(r[|r| - 1]) && forall i :: 0 <= i < |r| ==> !IsUpper(r[i])
  {
  }

  // ---------------------------------------------------------------------------
  // str(n) and int(s)
  // ---------------------------------------------------------------------------

  function DigitChar(d: nat): (c: char)
    requires d < 10
    ensures IsDigit(c)
  {
    ('0' as int + d) as char
  }

  function DigitValue(c: char): (d: nat)
    requires IsDigit(c)
    ensures d < 10 && DigitChar(d) == c
  {
    c as int - '0' as int
  }

  /** `str(n)` for a non-negative integer: its decimal digits, most significant first. */
  function NatToString(n: nat): (s: string)
    ensures |s| >= 1 && AllDigits(s)
    ensures |s| > 1 ==> s[0] != '0'
    decreases n
  {
    if n < 10 then [DigitChar(n)] else NatToString(n / 10) + [DigitChar(n % 10)]
  }

  /** `str(i)` for any integer: a minus sign before the digits of a negative number. */
  function IntToString(i: int): (s: string)
    ensures |s| >= 1 && !IsSpace(s[0]) && !IsSpace(s[|s| - 1])
    ensures i >= 0 ==> AllDigits(s)
  {
    if i < 0 then "-" + NatToString(-i) else NatToString(i)
  }

  /** Python's default limit on the number of digits `int(s)` reads and
      `str(i)` writes (`sys.int_info.default_max_str_digits`); beyond it both
      raise ValueError. */
  const MAX_STR_DIGITS: nat := 4300

  /** `str(i)` stays within the digit limit, so converting `i` does not raise. */
  predicate WithinDigitLimit(i: int) {
    |NatToString(if i < 0 then -i else i)| <= MAX_STR_DIGITS
  }

  function Pow10(k: nat): (p: nat)
    ensures p >= 1
  {
    if k == 0 then 1 else 10 * Pow10(k - 1)
  }

  /** A number below `10^k` has at most `k` digits. */
  lemma {:induction false} NatToStringLength(n: nat, k: nat)
    requires 1 <= k && n < Pow10(k)
    ensures |NatToString(n)| <= k
    decreases k
  {
    if n >= 10 {
      assert Pow10(1) == 10;
      assert n / 10 < Pow10(k - 1);
      NatToStringLength(n / 10, k - 1);
    }
  }

  /** Every value of a 64-bit integer column converts within the digit limit. */
  lemma Int64WithinDigitLimit(i: int)
    requires -0x8000_0000_0000_0000 <= i < 0x8000_0000_0000_0000
    ensures WithinDigitLimit(i)
  {
    assert Pow10(10) == 10_000_000_000;
    assert Pow10(19) == 10_000_000_000_000_000_000;
    NatToStringLength(if i < 0 then -i else i, 19);
  }

  /** The value of a string of decimal digits. */
  function DigitsValue(s: string): nat
    requires AllDigits(s)
  {
    if s == [] then 0 else DigitsValue(s[..|s| - 1]) * 10 + DigitValue(s[|s| - 1])
  }

  lemma {:induction false} NatToStringRoundTrip(n: nat)
    ensures DigitsValue(NatToString(n)) == n
    decreases n
  {
    if n >= 10 {
      NatToStringRoundTrip(n / 10);
      var s := NatToString(n);
      assert s[..|s| - 1] == NatToString(n / 10);
    }
  }

  /** The text between the surrounding whitespace, split into whether it
      starts with a minus sign and what follows an optional leading sign. */
  function SignAndBody(s: string): (bool, string)
  {
    var t := Strip(s);
    if |t| > 0 && (t[0] == '+' || t[0] == '-') then (t[0] == '-', t[1..]) else (false, t)
  }

  /** Python's `int(s)`: optional surrounding whitespace, an optional sign and at
      least one decimal digit. Digit-group underscores and non-ASCII digits are
      not modelled. */
  function ParseInt(s: string): Option<int>
  {
    var (negative, body) := SignAndBody(s);
    if 0 < |body| <= MAX_STR_DIGITS && AllDigits(body) then
      var v: int := DigitsValue(body);
      Some(if negative then -v else v)
    else
      None
  }

  /** A run of digits within the limit reads as its value. */
  lemma ParseDigits(digits: string)
    requires 0 < |digits| <= MAX_STR_DIGITS && AllDigits(digits)
    ensures ParseInt(digits) == Some(DigitsValue(digits))
  {
    StripUnchanged(digits);
    assert SignAndBody(digits) == (false, digits);
  }

  /** A minus sign before a run of digits within the limit reads as the
      negated value. */
  lemma ParseNegativeDigits(s: string)
    requires |s| >= 2 && s[0] == '-' && |s| - 1 <= MAX_STR_DIGITS && AllDigits(s[1..])
    ensures ParseInt(s) == Some(-(DigitsValue(s[1..]) as int))
  {
    assert IsDigit(s[1..][|s| - 2]);
    StripUnchanged(s);
  }

  /** `int(str(i)) == i` for every integer whose digits are within the limit. */
  lemma IntRoundTrip(i: int)
    requires WithinDigitLimit(i)
    ensures ParseInt(IntToString(i)) == Some(i)
  {
    if i < 0 {
      NegativeIntRoundTrip(i);
    } else {
      NatToStringRoundTrip(i);
      ParseDigits(NatToString(i));
    }
  }

  lemma NegativeIntRoundTrip(i: int)
    requires i < 0 && WithinDigitLimit(i)
    ensures ParseInt(IntToString(i)) == Some(i)
  {
    var s := IntToString(i);
    assert s[1..] == NatToString(-i);
    NatToStringRoundTrip(-i);
    ParseNegativeDigits(s);
  }

  /** A string of more digits than the limit is refused by `int()`, whatever
      its value. */
  lemma ParseIntDigitLimit(s: string)
    requires |s| > MAX_STR_DIGITS && AllDigits(s)
    ensures ParseInt(s).None?
  {
    StripUnchanged(s);
  }

  // ---------------------------------------------------------------------------
  // decimal.Decimal(s)
  // ---------------------------------------------------------------------------

  /** An exact decimal number: `units` times ten to the power `-scale`. */
  datatype Decimal = Decimal(units: int, scale: nat)

  /** `Decimal(s)` on the plain positional grammar: optional surrounding
      whitespace, an optional sign, digits with at most one decimal point and at
      least one digit. Exponents, NaN, Infinity and underscores are not
      modelled. */
  function ParseDecimal(s: string): Option<Decimal>
  {
    var (negative, body) := SignAndBody(s);
    var parts := SplitOn(body, '.');
    var intPart := parts[0];
    var fracPart := if |parts| == 2 then parts[1] else "";
    if |parts| <= 2 && AllDigits(intPart) && AllDigits(fracPart) && |intPart| + |fracPart| > 0 then
      // the digits on both sides of the point, read as one integer
      var magnitude: int := DigitsValue(intPart + fracPart);
      Some(Decimal(if negative then -magnitude else magnitude, |fracPart|))
    else
      None
  }

  /** Every string `int()` accepts is accepted by `Decimal()` with the same value. */
  lemma IntStringIsDecimal(s: string)
    requires ParseInt(s).Some?
    ensures ParseDecimal(s) == Some(Decimal(ParseInt(s).value, 0))
  {
    var body := SignAndBody(s).1;
    SplitWithoutSeparator(body, '.');
    assert body + "" == body;
  }

  /** Digits, a point and digits read as the integer all the digits spell
      together, scaled down by the number of digits after the point. */
  lemma FractionalDecimal(whole: string, fraction: string)
    requires AllDigits(whole) && AllDigits(fraction) && |whole| + |fraction| > 0
    ensures ParseDecimal(whole + "." + fraction) == Some(Decimal(DigitsValue(whole + fraction), |fraction|))
  {
    var s := whole + "." + fraction;
    assert s[0] == (if whole == [] then '.' else whole[0]);
    StripUnchanged(s);
    assert SignAndBody(s) == (false, s);
    SplitWithoutSeparator(fraction, '.');
    SplitAtFirstSeparator(whole, fraction, '.');
  }

  /** `Decimal("1.25")` is 125 hundredths. */
  lemma FractionalDecimalExample()
    ensures ParseDecimal("1.25") == Some(Decimal(125, 2))
  {
    FractionalDecimal("1", "25");
    assert "1" + "." + "25" == "1.25" && "1" + "25" == "125";
    assert DigitsValue("125") == 125 by {
      assert "125"[..2] == "12" && "12"[..1] == "1" && "1"[..0] == "";
    }
  }

  // ---------------------------------------------------------------------------
  // str.split(sep) and sep.join(parts)
  // ---------------------------------------------------------------------------

  /** `s.split(c)` for a one-character separator: always at least one piece, and
      no piece contains the separator. */
  function SplitOn(s: string, c: char): (parts: seq<string>)
    ensures |parts| >= 1
    ensures forall i :: 0 <= i < |parts| ==> c !in parts[i]
    decreases |s|
  {
    if s == [] then [""]
    else
      var rest := SplitOn(s[1..], c);
      if s[0] == c then [""] + rest else [[s[0]] + rest[0]] + rest[1..]
  }

  /** `c.join(parts)`. */
  function JoinWith(parts: seq<string>, c: char): string
    requires |parts| >= 1
  {
    if |parts| == 1 then parts[0] else parts[0] + [c] + JoinWith(parts[1..], c)
  }

  /** Prepending a character to the first piece prepends it to the join. */
  lemma JoinConsFirst(x: char, parts: seq<string>, c: char)
    requires |parts| >= 1
    ensures JoinWith([[x] + parts[0]] + parts[1..], c) == [x] + JoinWith(parts, c)
  {
    var ps := [[x] + parts[0]] + parts[1..];
    assert ps[1..] == parts[1..];
  }

  /** Joining the pieces of a split gives back the original string. */
  lemma {:induction false} JoinSplit(s: string, c: char)
    ensures JoinWith(SplitOn(s, c), c) == s
    decreases |s|
  {
    if s != [] {
      JoinSplit(s[1..], c);
      var rest := SplitOn(s[1..], c);
      if s[0] != c {
        JoinConsFirst(s[0], rest, c);
        assert rest == [rest[0]] + rest[1..];
      } else {
        assert ([""] + rest)[1..] == rest;
      }
      assert s == [s[0]] + s[1..];
    }
  }

  lemma {:induction false} SplitWithoutSeparator(s: string, c: char)
    requires c !in s
    ensures SplitOn(s, c) == [s]
    decreases |s|
  {
    if s != [] {
      SplitWithoutSeparator(s[1..], c);
      assert [s[0]] + s[1..] == s;
    }
  }

  lemma {:induction false} SplitAtFirstSeparator(p: string, t: string, c: char)
    requires c !in p
    ensures SplitOn(p + [c] + t, c) == [p] + SplitOn(t, c)
    decreases |p|
  {
    if p == [] {
      assert p + [c] + t == [c] + t;
      assert ([c] + t)[1..] == t;
    } else {
      SplitAtFirstSeparator(p[1..], t, c);
      assert (p + [c] + t)[1..] == p[1..] + [c] + t;
      assert [p[0]] + p[1..] == p;
    }
  }

  /** Splitting a join of separator-free pieces gives back the pieces. */
  lemma {:induction false} SplitJoin(parts: seq<string>, c: char)
    requires |parts| >= 1
    requires forall i :: 0 <= i < |parts| ==> c !in parts[i]
    ensures SplitOn(JoinWith(parts, c), c) == parts
    decreases |parts|
  {
    if |parts| == 1 {
      SplitWithoutSeparator(parts[0], c);
    } else {
      SplitJoin(parts[1..], c);
      SplitAtFirstSeparator(parts[0], JoinWith(parts[1..], c), c);
      assert [parts[0]] + parts[1..] == parts;
    }
  }

  // ---------------------------------------------------------------------------
  // str.replace(old, new)
  // ---------------------------------------------------------------------------

  /** `s.replace(pat, rep)`: every non-overlapping occurrence of `pat`, scanned
      left to right, is replaced by `rep`. */
  function ReplaceAll(s: string, pat: string, rep: string): string
    requires pat != []
    decreases |s|
  {
    if |s| < |pat| then s
    else if s[..|pat|] == pat then rep + ReplaceAll(s[|pat|..], pat, rep)
    else [s[0]] + ReplaceAll(s[1..], pat, rep)
  }

  /** `pat` occurs in `s` starting at position `i`. */
  predicate MatchAt(s: string, pat: string, i: nat) {
    i + |pat| <= |s| && s[i..i + |pat|] == pat
  }

  /** A string in which the pattern does not occur is left as it is. */
  lemma {:induction false} ReplaceWithoutOccurrence(s: string, pat: string, rep: string)
    requires pat != [] && forall i: nat :: !MatchAt(s, pat, i)
    ensures ReplaceAll(s, pat, rep) == s
    decreases |s|
  {
    if |s| >= |pat| {
      assert !MatchAt(s, pat, 0);
      assert s[0..|pat|] == s[..|pat|];
      forall i: nat ensures !MatchAt(s[1..], pat, i) {
        assert !MatchAt(s, pat, i + 1);
        if i + |pat| <= |s[1..]| {
          assert s[1..][i..i + |pat|] == s[i + 1..i + 1 + |pat|];
        }
      }
      ReplaceWithoutOccurrence(s[1..], pat, rep);
      assert [s[0]] + s[1..] == s;
    }
  }

  /** A character that does not start the pattern is copied unchanged. */
  lemma ReplaceCopiesMismatch(s: string, pat: string, rep: string)
    requires pat != [] && s != [] && s[0] != pat[0]
    ensures ReplaceAll(s, pat, rep) == [s[0]] + ReplaceAll(s[1..], pat, rep)
  {
    if |s| >= |pat| {
      assert s[..|pat|][0] != pat[0];
    }
  }

  /** The empty form's prefix has its placeholder replaced by the given text. */
  lemma ReplacePrefixPlaceholder(x: string)
    ensures ReplaceAll("form-__prefix__", "__prefix__", x) == "form-" + x
  {
    var pat := "__prefix__";
    var s := "form-__prefix__";
    assert s[5..] == pat;
    assert s[5..][..|pat|] == pat;
    assert s[5..][|pat|..] == [];
    ReplaceCopiesMismatch(s, pat, x);
    ReplaceCopiesMismatch(s[1..], pat, x);
    ReplaceCopiesMismatch(s[2..], pat, x);
    ReplaceCopiesMismatch(s[3..], pat, x);
    ReplaceCopiesMismatch(s[4..], pat, x);
    assert s[1..][1..] == s[2..] && s[2..][1..] == s[3..] && s[3..][1..] == s[4..] && s[4..][1..] == s[5..];
    assert ReplaceAll(s[5..], pat, x) == x;
  }
}
