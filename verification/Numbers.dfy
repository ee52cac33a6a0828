/** Numbers as text: the digits that formatted output produces and the parser that
    reads them back. */
module Numbers {

  // ------------------------------------------------------------ digits

  function DigitChar(d: nat, lower: bool): char
    requires d < 16
  {
    if d < 10 then '0' + d as char else if lower then 'a' + (d - 10) as char else 'A' + (d - 10) as char
  }

  /** `digit_value`: -1 for anything that is no digit in any base. */
  function DigitValue(c: char): int {
    if '0' <= c <= '9' then c as int - '0' as int
    else if 'a' <= c <= 'z' then c as int - 'a' as int + 10
    else if 'A' <= c <= 'Z' then c as int - 'A' as int + 10
    else -1
  }

  /** The digits of `v`, most significant first. */
  function Digits(v: nat, base: nat, lower: bool): (s: string)
    requires 2 <= base <= 16
    ensures |s| > 0
    decreases v
  {
    if v < base then [DigitChar(v, lower)] else Digits(v / base, base, lower) + [DigitChar(v % base, lower)]
  }

  /** The number that a run of digits denotes. */
  function Value(s: string, base: nat): int {
    if s == "" then 0 else Value(s[..|s| - 1], base) * base + DigitValue(s[|s| - 1])
  }

  /** The length of the run of digits of `base` that `s` begins with. */
  function Run(s: string, base: nat): (k: nat)
    ensures k <= |s|
  {
    if s != "" && 0 <= DigitValue(s[0]) < base then 1 + Run(s[1..], base) else 0
  }

  predicate AllDigits(s: string, base: nat) { forall i :: 0 <= i < |s| ==> 0 <= DigitValue(s[i]) < base }

  lemma {:induction false} RunAll(s: string, base: nat)
    requires AllDigits(s, base)
    ensures Run(s, base) == |s|
  {
    if s != "" { RunAll(s[1..], base); }
  }

  lemma CharDigit(d: nat, lower: bool)
    requires d < 16
    ensures DigitValue(DigitChar(d, lower)) == d
  {}

  lemma ValueSnoc(s: string, c: char, base: nat)
    ensures Value(s + [c], base) == Value(s, base) * base + DigitValue(c)
  {
    assert (s + [c])[..|s|] == s;
  }

  lemma DivMod(v: nat, base: nat)
    requires base >= 2
    ensures v == v / base * base + v % base && 0 <= v % base < base && (v > 0 ==> v / base < v)
  {}

  lemma DigitsUnfold(v: nat, base: nat, lower: bool)
    requires 2 <= base <= 16
    ensures Digits(v, base, lower) == if v < base then "" + [DigitChar(v, lower)]
                                      else Digits(v / base, base, lower) + [DigitChar(v % base, lower)]
  {
    hide DigitChar;
  }

  lemma {:induction false} DigitsAre(v: nat, base: nat, lower: bool)
    requires 2 <= base <= 16
    ensures AllDigits(Digits(v, base, lower), base) && Value(Digits(v, base, lower), base) == v
    decreases v
  {
    hide DigitValue, DigitChar, Value, Digits;
    DigitsUnfold(v, base, lower);
    DivMod(v, base);
    NoValue(base);
    if v < base {
      CharDigit(v, lower);
      ValueSnoc("", DigitChar(v, lower), base);
    } else {
      DigitsAre(v / base, base, lower);
      CharDigit(v % base, lower);
      ValueSnoc(Digits(v / base, base, lower), DigitChar(v % base, lower), base);
    }
  }

  lemma NoValue(base: nat)
    ensures Value("", base) == 0
  {}

  function Power(base: nat, n: nat): nat { if n == 0 then 1 else base * Power(base, n - 1) }

  /** Number `v` has `n` digits: no fewer hold it, and zero has one. */
  ghost predicate HasDigits(v: nat, base: nat, n: nat) {
    n >= 1 && v < Power(base, n) && (n > 1 ==> Power(base, n - 1) <= v)
  }

  lemma {:induction false} DigitsCount(v: nat, base: nat, lower: bool)
    requires 2 <= base <= 16
    ensures HasDigits(v, base, |Digits(v, base, lower)|)
    decreases v
  {
    hide DigitChar;
    if v >= base {
      DigitsCount(v / base, base, lower);
      var n := |Digits(v / base, base, lower)|;
      hide Digits, Power;
      PowerStep(base, n - 1);
      PowerStep(base, n);
      Scaled(v, base, Power(base, n - 1), Power(base, n));
      if n == 1 { PowerStep(base, 0); NoPower(base); }
    } else {
      NoPower(base);
      PowerStep(base, 0);
    }
  }

  lemma PowerStep(base: nat, n: nat)
    ensures Power(base, n + 1) == base * Power(base, n)
  {}

  lemma NoPower(base: nat)
    ensures Power(base, 0) == 1
  {}

  lemma Scaled(v: nat, base: nat, lo: nat, hi: nat)
    requires base >= 2
    ensures v / base < hi ==> v < base * hi
    ensures lo <= v / base ==> base * lo <= v
  {
    var q := v / base;
    if q < hi { assert base * (q + 1) <= base * hi; }
    if lo <= q { assert base * lo <= base * q; }
  }

  /** Digits above nine are small or capital letters. */
  predicate CharCase(c: char, lower: bool) {
    '0' <= c <= '9' || (if lower then 'a' <= c <= 'f' else 'A' <= c <= 'F')
  }

  predicate InCase(s: string, lower: bool) { forall i :: 0 <= i < |s| ==> CharCase(s[i], lower) }

  lemma DigitCase(d: nat, lower: bool)
    requires d < 16
    ensures CharCase(DigitChar(d, lower), lower)
  {}

  lemma {:induction false} DigitsCase(v: nat, base: nat, lower: bool)
    requires 2 <= base <= 16
    ensures InCase(Digits(v, base, lower), lower)
    decreases v
  {
    hide DigitChar, CharCase, Digits;
    DigitsUnfold(v, base, lower);
    DivMod(v, base);
    DigitCase(v % base, lower);
    if v >= base { DigitsCase(v / base, base, lower); } else { DigitCase(v, lower); }
  }

  lemma {:induction false} PowerGrows(base: nat, m: nat, n: nat)
    requires base >= 1 && m <= n
    ensures 1 <= Power(base, m) <= Power(base, n)
    decreases n
  {
    if m < n {
      PowerGrows(base, m, n - 1);
      Times(Power(base, n - 1), base);
    } else if n > 0 {
      PowerGrows(base, n - 1, n - 1);
      Times(Power(base, n - 1), base);
    }
  }

  lemma CountUnique(v: nat, base: nat, m: nat, n: nat)
    requires base >= 1 && HasDigits(v, base, m) && HasDigits(v, base, n)
    ensures m == n
  {
    if m < n { PowerGrows(base, m, n - 1); }
    if n < m { PowerGrows(base, n, m - 1); }
  }

  lemma SameDigit(c: char, d: char, lower: bool)
    requires CharCase(c, lower) && CharCase(d, lower) && DigitValue(c) == DigitValue(d)
    ensures c == d
  {}

  lemma SameParts(x: int, y: int, c: int, d: int, base: nat)
    requires 0 <= c < base && 0 <= d < base && x * base + c == y * base + d
    ensures x == y && c == d
  {
    var b: int := base;
    assert (y - x) * b == y * b - x * b;
    Multiples(y - x, b);
  }

  lemma Multiples(e: int, b: int)
    requires b > 0
    ensures e >= 1 ==> e * b >= b
    ensures e <= -1 ==> e * b <= -b
  {}

  /** As many digits in the same case that denote the same number are the same digits. */
  lemma {:induction false} SameDigits(a: string, b: string, base: nat, lower: bool)
    requires |a| == |b| && AllDigits(a, base) && AllDigits(b, base) && InCase(a, lower) && InCase(b, lower)
    requires Value(a, base) == Value(b, base)
    ensures a == b
  {
    hide DigitValue, CharCase;
    if a != "" {
      var k := |a| - 1;
      SameParts(Value(a[..k], base), Value(b[..k], base), DigitValue(a[k]), DigitValue(b[k]), base);
      SameDigit(a[k], b[k], lower);
      SameDigits(a[..k], b[..k], base, lower);
      assert a == a[..k] + [a[k]] && b == b[..k] + [b[k]];
    }
  }

  function Rep(c: char, n: int): (s: string)
    ensures |s| == if n > 0 then n else 0
    ensures forall i :: 0 <= i < |s| ==> s[i] == c
  {
    if n > 0 then seq(n, _ => c) else ""
  }

  /** Zeros in front change nothing. */
  lemma {:induction false} LeadingZeros(n: int, s: string, base: nat)
    requires base >= 2 && AllDigits(s, base)
    ensures AllDigits(Rep('0', n) + s, base) && Value(Rep('0', n) + s, base) == Value(s, base)
    decreases |s|, if n > 0 then n else 0
  {
    var t := Rep('0', n) + s;
    if s == "" {
      if n > 0 {
        LeadingZeros(n - 1, s, base);
        assert t[..|t| - 1] == Rep('0', n - 1) + s;
      } else {
        assert t == s;
      }
    } else {
      LeadingZeros(n, s[..|s| - 1], base);
      assert t[..|t| - 1] == Rep('0', n) + s[..|s| - 1];
    }
  }

  /** Reading digit by digit never passes the final value: when that fits, every
      intermediate value fits. */
  lemma {:induction false} PrefixSmaller(s: string, base: nat, k: nat)
    requires base >= 1 && AllDigits(s, base) && k <= |s|
    ensures 0 <= Value(s[..k], base) <= Value(s, base)
    decreases |s|
  {
    hide DigitValue, Value;
    NoValue(base);
    if s == "" {
      assert s[..k] == s;
    } else {
      var t := s[..|s| - 1];
      assert s == t + [s[|s| - 1]];
      ValueSnoc(t, s[|s| - 1], base);
      PrefixSmaller(t, base, if k < |s| then k else 0);
      Times(Value(t, base), base);
      assert k < |s| ==> t[..k] == s[..k];
      assert k == |s| ==> s[..k] == s;
    }
  }

  lemma Times(v: int, base: nat)
    requires base >= 1
    ensures v >= 0 ==> v <= v * base
  {}

  // ------------------------------------------------------------ strtol

  const LIMIT: nat := 0x8000_0000_0000_0000

  predicate IsSpace(c: char) { c == ' ' || 9 as char <= c <= 13 as char }

  function Trim(s: string): (t: string)
    ensures |t| <= |s| && s[|s| - |t|..] == t
    ensures t == "" || !IsSpace(t[0])
  {
    if s != "" && IsSpace(s[0]) then Trim(s[1..]) else s
  }

  datatype Parsed = Parsed(value: int, end: nat)

  function Unsigned(t: string): string { if t != "" && (t[0] == '+' || t[0] == '-') then t[1..] else t }

  predicate HexPrefix(u: string) { |u| >= 2 && u[0] == '0' && (u[1] == 'x' || u[1] == 'X') }

  /** The digits of `w` in base `b`. */
  function Magnitude(w: string, b: nat): Parsed { Parsed(Value(w[..Run(w, b)], b), Run(w, b)) }

  /** A hexadecimal prefix and digits; `end` counts from the start of `u`, 0 when there
      was no digit. */
  function Prefixed(u: string, base: nat): Parsed {
    var hex := (base == 0 || base == 16) && HexPrefix(u);
    var m := if hex then Magnitude(u[2..], 16) else Magnitude(u, if base == 0 then 10 else base);
    if m.end == 0 then m else m.(end := m.end + if hex then 2 else 0)
  }

  /** A sign and what follows it. */
  function Signed(t: string, base: nat): Parsed {
    var m := Prefixed(Unsigned(t), base);
    Parsed(if t != "" && t[0] == '-' then -m.value else m.value, if m.end == 0 then 0 else |t| - |Unsigned(t)| + m.end)
  }

  /** What `strtol` reads: spaces, a sign, a hexadecimal prefix, a run of digits. */
  function Strtol(s: string, base: nat): Parsed {
    var m := Signed(Trim(s), base);
    if m.end == 0 then m else m.(end := |s| - |Trim(s)| + m.end)
  }

  lemma {:induction false} TrimSpaces(n: int, s: string)
    requires s == "" || !IsSpace(s[0])
    ensures Trim(Rep(' ', n) + s) == s
    decreases if n > 0 then n else 0
  {
    hide Trim;
    var t := Rep(' ', n) + s;
    if n > 0 {
      TrimSpaces(n - 1, s);
      assert t[1..] == Rep(' ', n - 1) + s;
      hide Rep;
      TrimOne(t);
    } else {
      assert t == s;
      TrimNone(s);
    }
  }

  lemma TrimOne(t: string)
    requires t != "" && IsSpace(t[0])
    ensures Trim(t) == Trim(t[1..])
  {}

  lemma TrimNone(t: string)
    requires t == "" || !IsSpace(t[0])
    ensures Trim(t) == t
  {}

  /** Reading what was printed: blanks, a sign, zeros and digits. */
  lemma ReadsBack(blanks: int, neg: bool, body: string, base: nat)
    requires base == 10 || base == 16
    requires AllDigits(body, base)
    ensures var s := Rep(' ', blanks) + (if neg then "-" else "") + body;
            var v := Value(body, base);
            Strtol(s, base).value == (if neg then -v else v) && Strtol(s, base).end == if body == "" then 0 else |s|
  {
    hide *;
    var sign := if neg then "-" else "";
    SignedIs(neg, body, base);
    NotSpaceDigit(body, base);
    Minus(sign, body);
    Trimmed(blanks, sign, body, base);
  }

  lemma Minus(sign: string, body: string)
    requires (sign == "" || sign == "-") && (body == "" || !IsSpace(body[0]))
    ensures sign + body == "" || !IsSpace((sign + body)[0])
  {}

  lemma Trimmed(blanks: int, sign: string, body: string, base: nat)
    requires sign + body == "" || !IsSpace((sign + body)[0])
    ensures var s, m := Rep(' ', blanks) + sign + body, Signed(sign + body, base);
            Strtol(s, base) == if m.end == 0 then m else m.(end := |s| - |sign + body| + m.end)
  {
    hide Signed, Rep, Trim, IsSpace;
    assert Rep(' ', blanks) + sign + body == Rep(' ', blanks) + (sign + body);
    TrimSpaces(blanks, sign + body);
  }

  lemma PrefixedIs(body: string, base: nat)
    requires (base == 10 || base == 16) && AllDigits(body, base)
    ensures Prefixed(body, base) == Parsed(Value(body, base), |body|)
  {
    NotSpaceDigit(body, base);
    RunAll(body, base);
    hide DigitValue, Value, AllDigits, Run, HexPrefix;
    assert body[..|body|] == body;
  }

  lemma SignedIs(neg: bool, body: string, base: nat)
    requires (base == 10 || base == 16) && AllDigits(body, base)
    ensures var t, v := (if neg then "-" else "") + body, Value(body, base);
            Signed(t, base) == Parsed(if neg then -v else v, if body == "" then 0 else |t|)
  {
    NotSpaceDigit(body, base);
    PrefixedIs(body, base);
    UnsignedIs(neg, body);
    hide DigitValue, Value, AllDigits, Prefixed, HexPrefix, Unsigned, IsSpace;
    NoValue(base);
  }

  lemma UnsignedIs(neg: bool, body: string)
    requires body != "" ==> body[0] != '+' && body[0] != '-'
    ensures var t := (if neg then "-" else "") + body;
            Unsigned(t) == body && (neg <==> t != "" && t[0] == '-') && |t| == |body| + if neg then 1 else 0
  {}

  lemma NotSpaceDigit(body: string, base: nat)
    requires AllDigits(body, base) && base <= 16
    ensures body != "" ==> !IsSpace(body[0]) && body[0] != '+' && body[0] != '-'
    ensures !HexPrefix(body)
  {}

  predicate AllSpaces(s: string) { forall i :: 0 <= i < |s| ==> IsSpace(s[i]) }

  lemma {:induction false} TrimAll(w: string, s: string)
    requires AllSpaces(w) && (s == "" || !IsSpace(s[0]))
    ensures Trim(w + s) == s
  {
    hide Trim, IsSpace;
    if w != "" {
      TrimAll(w[1..], s);
      assert (w + s)[1..] == w[1..] + s;
      TrimOne(w + s);
    } else {
      assert w + s == s;
      TrimNone(s);
    }
  }

  /** The run of digits ends where they do. */
  lemma {:induction false} RunStops(s: string, rest: string, base: nat)
    requires AllDigits(s, base) && (rest == "" || !(0 <= DigitValue(rest[0]) < base))
    ensures Run(s + rest, base) == |s|
  {
    hide DigitValue;
    if s != "" {
      RunStops(s[1..], rest, base);
      assert (s + rest)[1..] == s[1..] + rest;
    } else {
      assert s + rest == rest;
    }
  }

  /** The base that the digits after `prefix` have: 16 behind a hexadecimal prefix, which only
      bases 0 and 16 know; 10 where base 0 finds none; else the one given. */
  function BaseOf(prefix: string, base: nat): nat { if prefix != "" then 16 else if base == 0 then 10 else base }

  predicate PrefixFor(prefix: string, base: nat) {
    prefix == "" || ((prefix == "0x" || prefix == "0X") && (base == 0 || base == 16))
  }

  /** The parts of a number in any spelling: a sign or none, a hexadecimal prefix or none, digits,
      and what follows them. */
  ghost predicate Spelled(sign: string, prefix: string, body: string, rest: string, base: nat) {
    && (sign == "" || sign == "+" || sign == "-") && PrefixFor(prefix, base)
    && body != "" && AllDigits(body, BaseOf(prefix, base))
    && (rest == "" || !(0 <= DigitValue(rest[0]) < BaseOf(prefix, base)))
    && (prefix == "" && (base == 0 || base == 16) ==> !HexPrefix(body + rest))
  }

  lemma SpelledPrefixed(prefix: string, body: string, rest: string, base: nat)
    requires Spelled("", prefix, body, rest, base)
    ensures Prefixed(prefix + body + rest, base) == Parsed(Value(body, BaseOf(prefix, base)), |prefix + body|)
  {
    hide Value, DigitValue, AllDigits;
    RunStops(body, rest, BaseOf(prefix, base));
    hide Run;
    var u := prefix + body + rest;
    assert (body + rest)[..|body|] == body;
    if prefix == "" { assert u == body + rest; } else { assert u[2..] == body + rest; }
  }

  lemma SpelledSign(sign: string, prefix: string, body: string, rest: string, base: nat)
    requires Spelled(sign, prefix, body, rest, base)
    ensures body != ""
    ensures var t := sign + prefix + body + rest;
            && !IsSpace(t[0]) && Unsigned(t) == prefix + body + rest
            && (t[0] == '-' <==> sign == "-")
  {
    var t, u := sign + prefix + body + rest, prefix + body + rest;
    assert t == sign + u;
    assert u[0] == if prefix == "" then body[0] else '0';
  }

  lemma SpelledSigned(sign: string, prefix: string, body: string, rest: string, base: nat)
    requires Spelled(sign, prefix, body, rest, base)
    ensures Signed(sign + prefix + body + rest, base) ==
            var v := Value(body, BaseOf(prefix, base));
            Parsed(if sign == "-" then -v else v, |sign| + |prefix| + |body|)
  {
    SpelledPrefixed(prefix, body, rest, base);
    SpelledSign(sign, prefix, body, rest, base);
    hide Value, Prefixed, Unsigned, IsSpace, AllDigits, DigitValue, HexPrefix, BaseOf;
  }

  lemma AfterSpaces(w: string, t: string, base: nat)
    requires AllSpaces(w) && t != "" && !IsSpace(t[0])
    ensures Strtol(w + t, base) == var m := Signed(t, base); if m.end == 0 then m else m.(end := |w| + m.end)
  {
    hide Signed, Trim;
    TrimAll(w, t);
  }

  /** What `strtol` reads, in any spelling and any base: the digits, negated after a minus, up to
      where they end. */
  lemma ReadsSpelled(w: string, sign: string, prefix: string, body: string, rest: string, base: nat)
    requires AllSpaces(w) && Spelled(sign, prefix, body, rest, base)
    ensures Strtol(w + (sign + prefix + body + rest), base) ==
            var v := Value(body, BaseOf(prefix, base));
            Parsed(if sign == "-" then -v else v, |w| + |sign| + |prefix| + |body|)
  {
    hide Value, Signed, IsSpace, Spelled, BaseOf, AllSpaces, Strtol;
    SpelledSign(sign, prefix, body, rest, base);
    SpelledSigned(sign, prefix, body, rest, base);
    AfterSpaces(w, sign + prefix + body + rest, base);
  }

  /** A hexadecimal prefix without a digit: nothing is read, not even its zero. */
  lemma ReadsBarePrefix(w: string, u: string, base: nat)
    requires AllSpaces(w) && HexPrefix(u) && (base == 0 || base == 16)
    requires |u| > 2 ==> !(0 <= DigitValue(u[2]) < 16)
    ensures Strtol(w + u, base) == Parsed(0, 0)
  {
    NoValue(16);
    AfterSpaces(w, u, base);
  }

  /** Where there is no digit, nothing is read. */
  lemma ReadsNothing(s: string, base: nat)
    ensures Strtol(s, base).end == 0 ==> Strtol(s, base).value == 0
    ensures Strtol(s, base).end <= |s|
  {
    hide Trim, Run;
    var u := Unsigned(Trim(s));
    NoValue(base);
    NoValue(10);
    NoValue(16);
  }

  newtype Long = x: int | -0x8000_0000_0000_0000 <= x < 0x8000_0000_0000_0000

  /** `strtol`, for numbers that a `long` can hold: no step overflows. */
  method ParseLong(s: string, base: nat) returns (r: Long, end: nat)
    requires base <= 36 && -(LIMIT as int) < Strtol(s, base).value < LIMIT
    ensures Parsed(r as int, end) == Strtol(s, base)
  {
    hide DigitValue, IsSpace, Run, Value;
    var i := SkipSpaces(s);
    hide Trim;
    var neg, at := false, i;
    if i < |s| && (s[i] == '+' || s[i] == '-') {
      neg := s[i] == '-';
      i := i + 1;
    }
    assert s[i..] == Unsigned(s[at..]);
    var b, u := base, i;
    if (base == 0 || base == 16) && i + 1 < |s| && s[i] == '0' && (s[i + 1] == 'x' || s[i + 1] == 'X') {
      i := i + 2;
      b := 16;
      assert s[i..] == s[u..][2..];
    } else if base == 0 {
      b := 10;
    }
    assert Prefixed(s[u..], base).value == Magnitude(s[i..], b).value;
    var value, k := ReadDigits(s, i, b);
    assert Parsed(value as int, if k == 0 then 0 else i - u + k) == Prefixed(s[u..], base);
    r, end := if neg then -value else value, if k == 0 then 0 else i + k;
  }

  method SkipSpaces(s: string) returns (i: nat)
    ensures i <= |s| && s[i..] == Trim(s)
  {
    hide IsSpace;
    i := 0;
    while i < |s| && IsSpace(s[i])
      invariant 0 <= i <= |s| && Trim(s[i..]) == Trim(s)
    {
      assert s[i..][1..] == s[i + 1..];
      i := i + 1;
    }
  }

  method ReadDigits(s: string, start: nat, base: nat) returns (value: Long, k: nat)
    requires start <= |s| && base <= 36 && Magnitude(s[start..], base).value < LIMIT
    ensures k == Run(s[start..], base) && value as int == Value(s[start..][..k], base)
  {
    hide DigitValue;
    ghost var w := s[start..];
    NoValue(base);
    value, k := 0, 0;
    while start + k < |s| && 0 <= DigitValue(s[start + k]) < base
      invariant start + k <= |s| && value as int == Value(w[..k], base) && Run(w, base) == k + Run(s[start + k..], base)
    {
      assert w[..k + 1] == w[..k] + [s[start + k]];
      ValueSnoc(w[..k], s[start + k], base);
      assert s[start + k..][1..] == s[start + k + 1..];
      Fits(w, base, k);
      value := value * base as Long + DigitValue(s[start + k]) as Long;
      k := k + 1;
    }
  }

  /** Before the last digit, one more step stays in range. */
  lemma Fits(w: string, base: nat, k: nat)
    requires k < Run(w, base) && Magnitude(w, base).value < LIMIT
    ensures 0 <= DigitValue(w[k]) < base && 0 <= Value(w[..k], base) <= Value(w[..k], base) * base
    ensures 0 <= Value(w[..k], base) * base + DigitValue(w[k]) < LIMIT
  {
    hide DigitValue, Value;
    RunIsDigits(w, base);
    var t := w[..Run(w, base)];
    PrefixSmaller(t, base, k);
    PrefixSmaller(t, base, k + 1);
    assert t[..k] == w[..k] && t[..k + 1] == w[..k] + [w[k]];
    ValueSnoc(w[..k], w[k], base);
    Times(Value(w[..k], base), base);
  }

  lemma {:induction false} RunIsDigits(w: string, base: nat)
    ensures AllDigits(w[..Run(w, base)], base)
  {
    hide DigitValue;
    if w != "" && 0 <= DigitValue(w[0]) < base {
      RunIsDigits(w[1..], base);
      assert w[..Run(w, base)] == [w[0]] + w[1..][..Run(w[1..], base)];
    }
  }
}
