/** Formatted output into a bounded buffer: the text that the format asks for, the
    prefix of it that fits, and reading numbers back. */
module Printf {

  import opened Numbers

  // ------------------------------------------------------------ arguments

  datatype Arg = Num(n: int) | Text(s: string) | Null

  const TWO32: nat := 0x1_0000_0000
  const TWO64: nat := 0x1_0000_0000_0000_0000

  function Bits(a: Arg): int { if a.Num? then a.n else 0 }

  /** `va_arg` as a signed number of 32 or 64 bits. */
  function SignedArg(a: Arg, long: bool): int {
    var m := if long then TWO64 else TWO32;
    var r := Bits(a) % m;
    if r >= m / 2 then r - m else r
  }

  function UnsignedArg(a: Arg, long: bool): nat { Bits(a) % if long then TWO64 else TWO32 }

  lemma ArgRange(a: Arg, long: bool)
    ensures 0 <= UnsignedArg(a, long) < TWO64 && -(LIMIT as int) <= SignedArg(a, long) < LIMIT
  {}

  function TextArg(a: Arg): string { if a.Text? then a.s else "(null)" }

  // ------------------------------------------------------------ one conversion

  /** Flags of a conversion; `at` is the place of its letter. */
  datatype Spec = Spec(zeroPad: bool, width: nat, hasPrecision: bool, precision: nat, isLong: bool, at: nat)

  /** The digits, with the zeros that the precision asks for; nothing for a zero
      printed with precision 0. */
  function Body(s: Spec, v: nat, base: nat, lower: bool): string
    requires 2 <= base <= 16
  {
    if Empty(s, v) then ""
    else
      var d := Digits(v, base, lower);
      (if s.hasPrecision then Rep('0', s.precision - |d|) else "") + d
  }

  /** The one number that prints as nothing but blanks. */
  predicate Empty(s: Spec, v: int) { s.hasPrecision && s.precision == 0 && v == 0 }

  function Field(s: Spec, neg: bool, v: nat, base: nat, lower: bool): string
    requires 2 <= base <= 16
  {
    var body := Body(s, v, base, lower);
    var pad := s.width - |body| - if neg then 1 else 0;
    var zero := s.zeroPad && !s.hasPrecision;
    (if zero then "" else Rep(' ', pad)) + (if neg then "-" else "") + (if zero then Rep('0', pad) else "") + body
  }

  function Decimal(s: Spec, v: int): string { Field(s, v < 0, if v < 0 then -v else v, 10, false) }

  function Unsigned10(s: Spec, v: nat): string { Field(s, false, v, 10, false) }

  function Hex(s: Spec, v: nat, lower: bool): string { Field(s, false, v, 16, lower) }

  // ------------------------------------------------- numbers read back

  /** The body is digits that denote the value. */
  lemma BodyIs(s: Spec, v: nat, base: nat, lower: bool)
    requires 2 <= base <= 16
    ensures AllDigits(Body(s, v, base, lower), base) && Value(Body(s, v, base, lower), base) == v
  {
    hide Value, DigitValue, AllDigits, Digits, Rep;
    NoDigits(base);
    NoValue(base);
    var d := Digits(v, base, lower);
    DigitsAre(v, base, lower);
    LeadingZeros(s.precision - |d|, d, base);
    assert "" + d == d;
  }

  lemma NoDigits(base: nat)
    ensures AllDigits("", base)
  {}

  function Max(a: int, b: int): int { if a > b then a else b }

  /** The fewest digits that a number of `n` digits prints with: its own or as many as the
      precision asks for; none for a zero of precision 0. */
  function Least(s: Spec, v: nat, n: nat): nat {
    if Empty(s, v) then 0 else if s.hasPrecision then Max(n, s.precision) else n
  }

  /** What an integer conversion prints: blanks, a sign, and digits that denote the value. The
      field is as wide as asked, or as wide as the sign and the digits are. Zeros fill it if the
      zero flag is given without a precision, else blanks. */
  ghost predicate IntegerText(out: string, s: Spec, v: int, base: nat, lower: bool, blanks: nat, digits: string,
                              n: nat) {
    var sign, m := if v < 0 then "-" else "", if v < 0 then -v else v;
    && HasDigits(m, base, n)
    && out == Rep(' ', blanks) + sign + digits
    && AllDigits(digits, base) && Value(digits, base) == m && InCase(digits, lower)
    && |out| == Max(s.width, |sign| + Least(s, m, n))
    && if s.zeroPad && !s.hasPrecision then blanks == 0 else |digits| == Least(s, m, n)
  }

  lemma BodyLength(s: Spec, v: nat, base: nat, lower: bool) returns (n: nat)
    requires 2 <= base <= 16
    ensures HasDigits(v, base, n) && |Body(s, v, base, lower)| == Least(s, v, n)
    ensures InCase(Body(s, v, base, lower), lower)
  {
    hide HasDigits, Digits;
    n := |Digits(v, base, lower)|;
    DigitsCount(v, base, lower);
    DigitsCase(v, base, lower);
  }

  /** Every integer field is such a text. */
  lemma FieldIs(s: Spec, v: int, base: nat, lower: bool) returns (blanks: nat, digits: string, n: nat)
    requires 2 <= base <= 16
    ensures IntegerText(Field(s, v < 0, if v < 0 then -v else v, base, lower), s, v, base, lower, blanks, digits, n)
    ensures digits == "" <==> Empty(s, v)
  {
    hide Value, DigitValue, AllDigits, Digits, Rep, HasDigits, CharCase, Body, Least;
    var m := if v < 0 then -v else v;
    BodyIs(s, m, base, lower);
    n := BodyLength(s, m, base, lower);
    LeastNone(s, m, base, n);
    var body := Body(s, m, base, lower);
    var sign := if v < 0 then "-" else "";
    var pad := s.width - |body| - |sign|;
    if s.zeroPad && !s.hasPrecision {
      LeadingZeros(pad, body, base);
      ZerosCase(pad, body, lower);
      blanks, digits := 0, Rep('0', pad) + body;
      Regroup(sign, Rep('0', pad), body, Rep(' ', 0));
    } else {
      blanks, digits := Max(pad, 0), body;
      SameRep(pad);
      Join(Rep(' ', pad), sign, body);
    }
  }

  /** There is only one such text: the conversion prints what it must. */
  lemma IntegerTextUnique(out: string, text: string, s: Spec, v: int, base: nat, lower: bool, b1: nat, d1: string,
                          n1: nat, b2: nat, d2: string, n2: nat)
    requires 2 <= base <= 16 && IntegerText(out, s, v, base, lower, b1, d1, n1)
    requires IntegerText(text, s, v, base, lower, b2, d2, n2)
    ensures out == text
  {
    hide Value, AllDigits, InCase, HasDigits, Least, Max;
    CountUnique(if v < 0 then -v else v, base, n1, n2);
    SameDigits(d1, d2, base, lower);
  }

  lemma LeastNone(s: Spec, v: nat, base: nat, n: nat)
    requires HasDigits(v, base, n)
    ensures Least(s, v, n) == 0 <==> Empty(s, v)
  {}

  lemma ZerosCase(n: int, body: string, lower: bool)
    requires InCase(body, lower)
    ensures InCase(Rep('0', n) + body, lower)
  {}

  lemma SameRep(n: int)
    ensures Rep(' ', Max(n, 0)) == Rep(' ', n)
  {}

  lemma Regroup(sign: string, zeros: string, body: string, none: string)
    requires none == ""
    ensures "" + sign + zeros + body == none + sign + (zeros + body)
  {}

  lemma Join(blanks: string, sign: string, body: string)
    ensures blanks + sign + "" + body == blanks + sign + body
  {
    assert blanks + sign + "" == blanks + sign;
  }

  /** Every `long` but the least is read back from its decimal form, for every width,
      zero flag and precision; `endptr` is at the end unless nothing was printed. */
  lemma DecimalReadsBack(s: Spec, v: int)
    requires -(LIMIT as int) < v < LIMIT
    ensures Strtol(Decimal(s, v), 10) == Parsed(v, if Empty(s, v) then 0 else |Decimal(s, v)|)
  {
    var m := if v < 0 then -v else v;
    var blanks, digits, _ := FieldIs(s, v, 10, false);
    ReadsBack(blanks, v < 0, digits, 10);
  }

  /** Every value below two to the 63 from its unsigned form. */
  lemma UnsignedReadsBack(s: Spec, v: nat)
    requires v < LIMIT
    ensures Strtol(Unsigned10(s, v), 10) == Parsed(v, if Empty(s, v) then 0 else |Unsigned10(s, v)|)
  {
    var blanks, digits, _ := FieldIs(s, v, 10, false);
    ReadsBack(blanks, false, digits, 10);
  }

  /** And from its hexadecimal form, in either case. */
  lemma HexReadsBack(s: Spec, v: nat, lower: bool)
    requires v < LIMIT
    ensures Strtol(Hex(s, v, lower), 16) == Parsed(v, if Empty(s, v) then 0 else |Hex(s, v, lower)|)
  {
    var blanks, digits, _ := FieldIs(s, v, 16, lower);
    ReadsBack(blanks, false, digits, 16);
  }

  // ------------------------------------------------------------ the format

  /** The character at `i`, NUL behind the end. */
  function At(f: string, i: nat): char { if i < |f| then f[i] else 0 as char }

  predicate IsDigit(c: char) { '0' <= c <= '9' }

  /** The first place from `i` on that is no decimal digit. */
  function DigitsEnd(f: string, i: nat): (j: nat)
    ensures i <= j && (i <= |f| ==> j <= |f|)
    decreases |f| - i
  {
    if i < |f| && IsDigit(f[i]) then DigitsEnd(f, i + 1) else i
  }

  function Decimals(f: string, i: nat): nat
    requires i <= |f|
  {
    DecimalsPositive(f, i);
    Value(f[i..DigitsEnd(f, i)], 10)
  }

  lemma DecimalsPositive(f: string, i: nat)
    requires i <= |f|
    ensures Value(f[i..DigitsEnd(f, i)], 10) >= 0
  {
    DecimalsAre(f, i);
    hide Value;
    var s := f[i..DigitsEnd(f, i)];
    PrefixSmaller(s, 10, |s|);
    assert s[..|s|] == s;
  }

  lemma {:induction false} DecimalsAre(f: string, i: nat)
    requires i <= |f|
    ensures AllDigits(f[i..DigitsEnd(f, i)], 10)
    decreases |f| - i
  {
    if i < |f| && IsDigit(f[i]) {
      DecimalsAre(f, i + 1);
      assert f[i..DigitsEnd(f, i)] == [f[i]] + f[i + 1..DigitsEnd(f, i + 1)];
    }
  }

  /** Zero flag, width, precision and length of a conversion, from behind its percent
      sign. */
  function SpecAt(f: string, i: nat): Spec
    requires i <= |f|
  {
    var zero := At(f, i) == '0';
    var i1 := if zero then i + 1 else i;
    var i2 := DigitsEnd(f, i1);
    var dot := At(f, i2) == '.';
    var i3 := if dot then DigitsEnd(f, i2 + 1) else i2;
    var long := At(f, i3) == 'l';
    var i4 := if !long then i3 else if At(f, i3 + 1) == 'l' then i3 + 2 else i3 + 1;
    Spec(zero, Decimals(f, i1), dot, if dot then Decimals(f, i2 + 1) else 0, long, i4)
  }

  predicate AllDecimal(s: string) { forall i :: 0 <= i < |s| ==> IsDigit(s[i]) }

  /** What follows `a` in the format, and what the format goes on with. */
  lemma Behind(f: string, i: nat, a: string, rest: string)
    requires i <= |f| && f[i..] == a + rest
    ensures i + |a| <= |f| && f[i..i + |a|] == a && f[i + |a|..] == rest
    ensures At(f, i) == if a == "" then At(rest, 0) else a[0]
  {
    assert f[i..i + |a|] == f[i..][..|a|];
    assert f[i + |a|..] == f[i..][|a|..];
    assert i < |f| ==> f[i] == f[i..][0];
  }

  lemma {:induction false} DigitsRun(f: string, i: nat, w: string, rest: string)
    requires i <= |f| && f[i..] == w + rest && AllDecimal(w) && !IsDigit(At(rest, 0))
    ensures i + |w| <= |f| && DigitsEnd(f, i) == i + |w| && f[i..i + |w|] == w && f[i + |w|..] == rest
    ensures At(f, i) == if w == "" then At(rest, 0) else w[0]
    decreases |w|
  {
    Behind(f, i, w, rest);
    if w != "" {
      assert f[i + 1..] == f[i..][1..] == w[1..] + rest;
      DigitsRun(f, i + 1, w[1..], rest);
    }
  }

  /** The flags, digits and length letters of a conversion, spelled out before its letter. */
  ghost predicate Directive(zero: string, w: string, dot: string, p: string, l: string, c: char) {
    && (zero == "" || zero == "0") && AllDecimal(w) && (zero == "" && w != "" ==> w[0] != '0')
    && (dot == "" || dot == ".") && AllDecimal(p) && (dot == "" ==> p == "")
    && (l == "" || l == "l" || l == "ll") && !IsDigit(c) && c != '.' && c != 'l'
  }

  /** The end of a conversion: length letters and the letter. */
  lemma LettersSpelled(f: string, i: nat, l: string, c: char, post: string)
    requires i <= |f| && f[i..] == l + ([c] + post) && (l == "" || l == "l" || l == "ll") && c != 'l'
    ensures |l| == if At(f, i) != 'l' then 0 else if At(f, i + 1) == 'l' then 2 else 1
    ensures At(f, i + |l|) == c
  {
    Behind(f, i, l, [c] + post);
    Behind(f, i + |l|, [c], post);
    if l == "ll" { assert f[i + 1] == f[i..][1]; }
  }

  /** Zero flag and width. */
  lemma WidthSpelled(f: string, i: nat, zero: string, w: string, q: string)
    requires i <= |f| && f[i..] == zero + (w + q) && (zero == "" || zero == "0") && AllDecimal(w) && !IsDigit(At(q, 0))
    requires zero == "" && w != "" ==> w[0] != '0'
    ensures |zero| == (if At(f, i) == '0' then 1 else 0) && i + |zero| + |w| <= |f| && f[i + |zero| + |w|..] == q
    ensures DigitsEnd(f, i + |zero|) == i + |zero| + |w| && Decimals(f, i + |zero|) == Value(w, 10)
  {
    hide Value, DigitsEnd;
    Behind(f, i, zero, w + q);
    DigitsRun(f, i + |zero|, w, q);
  }

  /** Precision. */
  lemma PrecisionSpelled(f: string, j: nat, dot: string, p: string, q: string)
    requires j <= |f| && f[j..] == dot + (p + q) && (dot == "" || dot == ".") && AllDecimal(p)
    requires (dot == "" ==> p == "") && !IsDigit(At(q, 0)) && At(q, 0) != '.'
    ensures |dot| == (if At(f, j) == '.' then 1 else 0) && j + |dot| + |p| <= |f| && f[j + |dot| + |p|..] == q
    ensures |dot| == 1 ==> DigitsEnd(f, j + 1) == j + 1 + |p| && Decimals(f, j + 1) == Value(p, 10)
    ensures |dot| == 0 ==> |p| == 0 && Value(p, 10) == 0
  {
    hide Value, DigitsEnd;
    NoValue(10);
    Behind(f, j, dot, p + q);
    DigitsRun(f, j + |dot|, p, q);
  }

  /** A conversion anywhere in a format is read as it is spelled. */
  lemma SpecSpelled(f: string, i: nat, zero: string, w: string, dot: string, p: string, l: string, c: char,
                    post: string)
    requires i <= |f| && Directive(zero, w, dot, p, l, c)
    requires f[i..] == zero + (w + (dot + (p + (l + ([c] + post)))))
    ensures var s := SpecAt(f, i);
            && s.zeroPad == (|zero| == 1) && s.width == Value(w, 10)
            && s.hasPrecision == (|dot| == 1) && s.precision == Value(p, 10) && s.isLong == (|l| > 0)
            && s.at == i + |zero| + |w| + |dot| + |p| + |l| && At(f, s.at) == c
  {
    hide Value, DigitsEnd, At, AllDecimal, Decimals, IsDigit, SpecAt;
    LeadChars(dot, p, l, c, post);
    var q := l + ([c] + post);
    var j2 := i + |zero| + |w|;
    var j4 := j2 + |dot| + |p|;
    WidthSpelled(f, i, zero, w, dot + (p + q));
    PrecisionSpelled(f, j2, dot, p, q);
    LettersSpelled(f, j4, l, c, post);
    hide Directive;
    SpecFrom(f, i, i + |zero|, j2, j4);
  }

  lemma SpecFrom(f: string, i: nat, j1: nat, j2: nat, j4: nat)
    requires i <= |f| && j1 == (if At(f, i) == '0' then i + 1 else i) && j1 <= |f| && j2 == DigitsEnd(f, j1)
    requires At(f, j2) == '.' ==> j2 < |f|
    requires j4 == if At(f, j2) == '.' then DigitsEnd(f, j2 + 1) else j2
    ensures var s := SpecAt(f, i);
            && s.zeroPad == (At(f, i) == '0') && s.width == Decimals(f, j1) && s.hasPrecision == (At(f, j2) == '.')
            && s.precision == (if At(f, j2) == '.' then Decimals(f, j2 + 1) else 0) && s.isLong == (At(f, j4) == 'l')
            && s.at == if At(f, j4) != 'l' then j4 else if At(f, j4 + 1) == 'l' then j4 + 2 else j4 + 1
  {
    hide DigitsEnd, At, Decimals;
  }

  lemma LeadChars(dot: string, p: string, l: string, c: char, post: string)
    requires Directive("", "", dot, p, l, c)
    ensures var q4 := l + ([c] + post); var q2 := dot + (p + q4);
            && !IsDigit(At(q4, 0)) && At(q4, 0) != '.' && !IsDigit(At(q2, 0)) && (At(q2, 0) == '.' <==> dot != "")
  {
    assert dot == "" ==> dot + (p + (l + ([c] + post))) == l + ([c] + post);
  }

  predicate TakesArg(c: char) { c in "diuxXpsc" }

  /** A string, cut to the precision and padded on the left. */
  function Shown(s: Spec, t: string): string {
    var shown := if s.hasPrecision && s.precision < |t| then t[..s.precision] else t;
    Rep(' ', s.width - |shown|) + shown
  }

  /** What one conversion prints. */
  function Converted(s: Spec, c: char, a: Arg): string {
    if c == 'd' || c == 'i' then Decimal(s, SignedArg(a, s.isLong))
    else if c == 'u' then Unsigned10(s, UnsignedArg(a, s.isLong))
    else if c == 'x' || c == 'X' then Hex(s, UnsignedArg(a, s.isLong), c == 'x')
    else if c == 'p' then "0x" + Digits(UnsignedArg(a, true), 16, false)
    else if c == 's' then Shown(s, TextArg(a))
    else if c == 'c' then [(Bits(a) % 256) as char]
    else ['%', c]
  }

  /** Every conversion from `i` on has its letter. A format that ends earlier makes the
      original step over the terminator. */
  predicate Complete(f: string, i: nat)
    requires i <= |f|
    decreases |f| - i
  {
    if i == |f| then true
    else if f[i] != '%' then Complete(f, i + 1)
    else if i + 1 == |f| then true
    else if f[i + 1] == '%' then Complete(f, i + 2)
    else var k := SpecAt(f, i + 1).at; i < k < |f| && Complete(f, k + 1)
  }

  /** Where one turn of the loop of `vsnprintf` leaves the format pointer. */
  function Turn(f: string, i: nat): nat
    requires i < |f|
  {
    if f[i] != '%' then i + 1
    else if i + 1 == |f| then |f|
    else if f[i + 1] == '%' then i + 2
    else SpecAt(f, i + 1).at + 1
  }

  /** The format pointer after `n` turns, |f| being the terminator. */
  function Position(f: string, n: nat): nat {
    if n == 0 then 0 else var p := Position(f, n - 1); if p < |f| then Turn(f, p) else p
  }

  lemma SpecInside(f: string, i: nat)
    requires i <= |f|
    ensures i <= SpecAt(f, i).at <= |f|
  {}

  lemma TurnMeans(f: string, i: nat)
    requires i < |f|
    ensures i < Turn(f, i) <= |f| + 1 && (Complete(f, i) <==> Turn(f, i) <= |f| && Complete(f, Turn(f, i)))
  {
    SpecInside(f, i + 1);
    hide SpecAt;
  }

  lemma {:induction false} PositionMeans(f: string, n: nat)
    ensures Position(f, n) <= |f| + 1 && (Position(f, n) < |f| ==> Position(f, n) >= n)
    ensures Complete(f, 0) <==> Position(f, n) <= |f| && Complete(f, Position(f, n))
  {
    hide Complete, Turn;
    if n > 0 {
      PositionMeans(f, n - 1);
      if Position(f, n - 1) < |f| { TurnMeans(f, Position(f, n - 1)); }
    }
  }

  /** The loop steps over the terminator exactly when the format ends inside a conversion. */
  lemma OverrunIff(f: string)
    ensures (exists n :: Position(f, n) > |f|) <==> !Complete(f, 0)
  {
    hide Complete, Position;
    PositionMeans(f, |f| + 1);
    CompleteEnd(f);
    forall n: nat ensures Position(f, n) > |f| ==> !Complete(f, 0) { PositionMeans(f, n); }
  }

  lemma CompleteEnd(f: string)
    ensures Complete(f, |f|)
  {}

  /** A percent sign and a width, say. */
  lemma OverrunAt()
    ensures Position("%5", 1) == 3 > |"%5"| && !Complete("%5", 0)
  {
    var f := "%5";
    assert DigitsEnd(f, 1) == 2;
    assert SpecAt(f, 1).at == 2;
    assert Position(f, 1) == Turn(f, 0);
  }

  /** The whole text that a format asks for. An argument that is missing reads as zero
      or as a null string. */
  function Render(f: string, i: nat, args: seq<Arg>): string
    requires i <= |f| && Complete(f, i)
    decreases |f| - i
  {
    if i == |f| then ""
    else if f[i] != '%' then [f[i]] + Render(f, i + 1, args)
    else if i + 1 == |f| then ""
    else if f[i + 1] == '%' then "%" + Render(f, i + 2, args)
    else
      var s := SpecAt(f, i + 1);
      var c := f[s.at];
      if TakesArg(c) then Converted(s, c, First(args)) + Render(f, s.at + 1, Rest(args))
      else Converted(s, c, Null) + Render(f, s.at + 1, args)
  }

  function First(args: seq<Arg>): Arg { if args == [] then Null else args[0] }

  function Rest(args: seq<Arg>): seq<Arg> { if args == [] then [] else args[1..] }

  /** The first piece of the text and what remains. */
  lemma RenderStep(f: string, i: nat, args: seq<Arg>)
    requires i < |f| && Complete(f, i)
    ensures if f[i] != '%' then Complete(f, i + 1) && Render(f, i, args) == [f[i]] + Render(f, i + 1, args)
            else if i + 1 == |f| then Render(f, i, args) == ""
            else if f[i + 1] == '%' then Complete(f, i + 2) && Render(f, i, args) == ['%'] + Render(f, i + 2, args)
            else var s := SpecAt(f, i + 1); i < s.at < |f| && Complete(f, s.at + 1) && var c := f[s.at];
                 Render(f, i, args) == if TakesArg(c) then Converted(s, c, First(args))
                   + Render(f, s.at + 1, Rest(args))
                                       else Converted(s, c, Null) + Render(f, s.at + 1, args)
  {
    hide SpecAt, Converted, TakesArg;
  }

  // ------------------------------------------------- what each conversion prints

  /** A conversion with letter `c` stands at `i`. */
  predicate ConversionAt(f: string, i: nat, c: char) {
    i + 1 < |f| && Complete(f, i) && f[i] == '%' && f[i + 1] != '%' && f[SpecAt(f, i + 1).at] == c
  }

  /** There, the format prints `out`, and the rest of it what it prints with arguments `rest`. */
  predicate Prints(f: string, i: nat, args: seq<Arg>, out: string, rest: seq<Arg>)
    requires i + 1 < |f| && Complete(f, i) && f[i] == '%' && f[i + 1] != '%'
  {
    Render(f, i, args) == out + Render(f, SpecAt(f, i + 1).at + 1, rest)
  }

  /** `va_arg` in terms of the number passed: it lacks a multiple of the type's range. */
  lemma ArgMeans(a: Arg) returns (i: int, u: int, l: int, m: int)
    ensures SignedArg(a, false) == Bits(a) - 0x1_0000_0000 * i && -0x8000_0000 <= SignedArg(a, false) < 0x8000_0000
    ensures UnsignedArg(a, false) == Bits(a) - 0x1_0000_0000 * u && 0 <= UnsignedArg(a, false) < 0x1_0000_0000
    ensures SignedArg(a, true) == Bits(a) - 0x1_0000_0000_0000_0000 * l
    ensures -0x8000_0000_0000_0000 <= SignedArg(a, true) < 0x8000_0000_0000_0000
    ensures UnsignedArg(a, true) == Bits(a) - 0x1_0000_0000_0000_0000 * m
    ensures 0 <= UnsignedArg(a, true) < 0x1_0000_0000_0000_0000
  {
    u, m := Bits(a) / TWO32, Bits(a) / TWO64;
    i := if Bits(a) % TWO32 >= TWO32 / 2 then u + 1 else u;
    l := if Bits(a) % TWO64 >= TWO64 / 2 then m + 1 else m;
  }

  /** Letters d and i print the argument as signed, u as unsigned decimal, x and X as
      hexadecimal. */
  lemma IntegerPiece(f: string, i: nat, args: seq<Arg>, c: char)
    returns (out: string, blanks: nat, digits: string, n: nat)
    requires ConversionAt(f, i, c) && c in "diuxX"
    ensures Prints(f, i, args, out, Rest(args))
    ensures var s, a := SpecAt(f, i + 1), First(args);
            && (c == 'd' || c == 'i' ==>
                  IntegerText(out, s, SignedArg(a, s.isLong), 10, false, blanks, digits, n))
            && (c == 'u' ==> IntegerText(out, s, UnsignedArg(a, s.isLong), 10, false, blanks, digits, n))
            && (c == 'x' ==> IntegerText(out, s, UnsignedArg(a, s.isLong), 16, true, blanks, digits, n))
            && (c == 'X' ==> IntegerText(out, s, UnsignedArg(a, s.isLong), 16, false, blanks, digits, n))
  {
    hide IntegerText, SpecAt, Field, Complete, Render, SignedArg, UnsignedArg;
    RenderStep(f, i, args);
    var s, a := SpecAt(f, i + 1), First(args);
    var v := if c == 'd' || c == 'i' then SignedArg(a, s.isLong) else UnsignedArg(a, s.isLong);
    out := Converted(s, c, a);
    blanks, digits, n := FieldIs(s, v, if c == 'x' || c == 'X' then 16 else 10, c == 'x');
  }

  /** Letter p prints 0x and the capital hexadecimal digits of the 64-bit argument, no leading
      zeros, whatever the width. */
  lemma PointerPiece(f: string, i: nat, args: seq<Arg>) returns (out: string, digits: string)
    requires ConversionAt(f, i, 'p')
    ensures Prints(f, i, args, out, Rest(args)) && out == "0x" + digits
    ensures var v := UnsignedArg(First(args), true);
            AllDigits(digits, 16) && Value(digits, 16) == v && InCase(digits, false) && HasDigits(v, 16, |digits|)
  {
    hide SpecAt, Complete, Render, UnsignedArg, Digits, HasDigits, Value, AllDigits, InCase;
    RenderStep(f, i, args);
    var v := UnsignedArg(First(args), true);
    digits := Digits(v, 16, false);
    out := "0x" + digits;
    DigitsAre(v, 16, false);
    DigitsCount(v, 16, false);
    DigitsCase(v, 16, false);
  }

  /** Letter s prints the string, no more of it than the precision allows, behind blanks up to the
      width; a null pointer prints as "(null)". */
  lemma TextPiece(f: string, i: nat, args: seq<Arg>) returns (out: string, k: nat)
    requires ConversionAt(f, i, 's')
    ensures Prints(f, i, args, out, Rest(args))
    ensures var s, t := SpecAt(f, i + 1), if First(args).Text? then First(args).s else "(null)";
            && k <= |t| && (if s.hasPrecision then k == |t| || k == s.precision else k == |t|)
            && (s.hasPrecision ==> k <= s.precision)
            && |out| == Max(s.width, k) && out[|out| - k..] == t[..k]
            && forall j :: 0 <= j < |out| - k ==> out[j] == ' '
  {
    hide SpecAt, Complete, Render;
    RenderStep(f, i, args);
    var s, t := SpecAt(f, i + 1), TextArg(First(args));
    out := Shown(s, t);
    k := if s.hasPrecision && s.precision < |t| then s.precision else |t|;
    assert k == |t| ==> t[..k] == t;
  }

  /** Letter c prints one character, the low byte of the argument. */
  lemma CharPiece(f: string, i: nat, args: seq<Arg>)
    requires ConversionAt(f, i, 'c')
    ensures Prints(f, i, args, [(Bits(First(args)) % 256) as char], Rest(args))
  {
    hide SpecAt, Complete, Render;
    RenderStep(f, i, args);
  }

  /** Any other letter is printed behind a percent sign, without its flags, and takes no
      argument. */
  lemma OtherPiece(f: string, i: nat, args: seq<Arg>, c: char)
    requires ConversionAt(f, i, c) && c !in "diuxXpsc"
    ensures Prints(f, i, args, ['%', c], args)
  {
    hide SpecAt, Complete, Render;
    RenderStep(f, i, args);
  }

  /** Two percent signs print one; all other characters print themselves; a percent sign at the
      end prints nothing. */
  lemma PlainPiece(f: string, i: nat, args: seq<Arg>)
    requires i < |f| && Complete(f, i) && (f[i] != '%' || i + 1 == |f| || f[i + 1] == '%')
    ensures f[i] != '%' ==> Complete(f, i + 1) && Render(f, i, args) == [f[i]] + Render(f, i + 1, args)
    ensures f[i] == '%' && i + 1 < |f| ==> Complete(f, i + 2) && Render(f, i, args) == "%" + Render(f, i + 2, args)
    ensures f[i] == '%' && i + 1 == |f| ==> Render(f, i, args) == ""
  {
    hide SpecAt;
  }

  /** The format is one conversion with letter `c`. */
  predicate One(f: string, c: char) {
    |f| >= 2 && f[0] == '%' && f[1] != '%' && var s := SpecAt(f, 1); s.at == |f| - 1 && f[s.at] == c
  }

  predicate OneLong(f: string, c: char) { One(f, c) && SpecAt(f, 1).isLong }

  lemma OneIs(f: string, c: char, v: int)
    requires One(f, c) && TakesArg(c)
    ensures Complete(f, 0) && Render(f, 0, [Num(v)]) == Converted(SpecAt(f, 1), c, Num(v))
  {
    hide SpecAt, Converted;
    var s := SpecAt(f, 1);
    RenderEnd(f, []);
    RenderStep(f, 0, [Num(v)]);
    assert Rest([Num(v)]) == [] && Converted(s, c, Num(v)) + "" == Converted(s, c, Num(v));
  }

  /** Any `%ld` or `%li` conversion, whatever its flag, width and precision: the text parses back
      to the argument. */
  lemma LongReadsBack(f: string, v: int)
    requires (OneLong(f, 'd') || OneLong(f, 'i')) && -(LIMIT as int) < v < LIMIT
    ensures Complete(f, 0) && Strtol(Render(f, 0, [Num(v)]), 10).value == v
  {
    hide Strtol, Decimal, SpecAt, Render, Complete;
    OneIs(f, f[SpecAt(f, 1).at], v);
    assert SignedArg(Num(v), true) == v;
    DecimalReadsBack(SpecAt(f, 1), v);
  }

  /** Any `%lu` conversion, below two to the 63. */
  lemma UnsignedLongReadsBack(f: string, v: nat)
    requires OneLong(f, 'u') && v < LIMIT
    ensures Complete(f, 0) && Strtol(Render(f, 0, [Num(v)]), 10).value == v
  {
    hide Strtol, Unsigned10, SpecAt, Render, Complete;
    OneIs(f, 'u', v);
    assert UnsignedArg(Num(v), true) == v;
    UnsignedReadsBack(SpecAt(f, 1), v);
  }

  /** Any `%lx` or `%lX` conversion in base 16, below two to the 63. */
  lemma HexLongReadsBack(f: string, v: nat)
    requires (OneLong(f, 'x') || OneLong(f, 'X')) && v < LIMIT
    ensures Complete(f, 0) && Strtol(Render(f, 0, [Num(v)]), 16).value == v
  {
    hide Strtol, Hex, SpecAt, Render, Complete;
    var c := f[SpecAt(f, 1).at];
    OneIs(f, c, v);
    assert UnsignedArg(Num(v), true) == v;
    HexReadsBack(SpecAt(f, 1), v, c == 'x');
  }

  /** Any `%p` conversion in base 16 or 0. */
  lemma PointerReadsBack(f: string, v: nat, base: nat)
    requires One(f, 'p') && v < LIMIT && (base == 0 || base == 16)
    ensures Complete(f, 0) && Strtol(Render(f, 0, [Num(v)]), base).value == v
  {
    hide Strtol, SpecAt, Render, Complete, Digits, Value, AllDigits, DigitValue;
    OneIs(f, 'p', v);
    var d := Digits(v, 16, false);
    assert UnsignedArg(Num(v), true) == v;
    DigitsAre(v, 16, false);
    ReadsSpelled("", "", "0x", d, "", base);
    Bare("0x", d);
  }

  lemma Bare(a: string, b: string)
    ensures "" + ("" + a + b + "") == a + b
  {}

  lemma RenderEnd(f: string, args: seq<Arg>)
    ensures Complete(f, |f|) && Render(f, |f|, args) == ""
  {}

  // ------------------------------------------------------------ the sink

  class Sink {
    const buf: array<char>
    const size: nat
    var pos: nat
    /** All characters put so far, stored or not. */
    ghost var text: string
    /** What lies behind the buffer's `size` bytes. */
    ghost const beyond: seq<char>

    ghost predicate Valid()
      reads this, buf
    {
      && size <= buf.Length && pos == |text|
      && (forall j :: 0 <= j < pos && j + 1 < size ==> buf[j] == text[j])
      && buf[size..] == beyond
    }

    constructor (buf: array<char>, size: nat)
      requires size <= buf.Length
      ensures Valid() && text == "" && this.buf == buf && this.size == size && beyond == buf[size..]
    {
      this.buf, this.size, pos, text, beyond := buf, size, 0, "", buf[size..];
    }

    /** `sink_putc`. */
    method Put(c: char)
      requires Valid()
      modifies this, buf
      ensures Valid() && text == old(text) + [c]
    {
      if pos + 1 < size { buf[pos] := c; }
      pos := pos + 1;
      text := text + [c];
    }

    /** `sink_puts` with a length limit. */
    method PutText(s: string)
      requires Valid()
      modifies this, buf
      ensures Valid() && text == old(text) + s
    {
      for i := 0 to |s|
        invariant Valid() && text == old(text) + s[..i]
      {
        Put(s[i]);
        assert s[..i + 1] == s[..i] + [s[i]];
      }
      assert s[..|s|] == s;
    }

    /** `sink_pad`. */
    method Pad(count: int, c: char)
      requires Valid()
      modifies this, buf
      ensures Valid() && text == old(text) + Rep(c, count)
    {
      var left := count;
      while left > 0
        invariant Valid() && text == old(text) + Rep(c, count - left) && (count <= 0 ==> left == count)
        invariant (count > 0 ==> 0 <= left <= count)
      {
        ghost var was := Rep(c, count - left);
        Put(c);
        left := left - 1;
        assert Rep(c, count - left) == was + [c];
      }
    }

    /** The terminator: the buffer then holds the longest prefix that fits. */
    method Finish()
      requires Valid()
      modifies buf
      ensures size > 0 ==>
                var k := if |text| < size then |text| else size - 1;
                buf[..k] == text[..k] && buf[k] == 0 as char
      ensures buf[size..] == beyond
    {
      if size > 0 {
        var term := if pos < size then pos else size - 1;
        buf[term] := 0 as char;
      }
    }

    /** The integer conversions. */
    method PutNumber(s: Spec, neg: bool, value: nat, base: nat, lower: bool)
      requires Valid() && (base == 10 || base == 16) && value < TWO64
      modifies this, buf
      ensures Valid() && text == old(text) + Field(s, neg, value, base, lower)
    {
      hide Digits, Rep, Field, Body;
      var tmp := new char[32];
      var n := FormatUint(value, base, tmp);
      LowerDigits(value, base);
      if lower { Lower(tmp, n); }
      ghost var d := Digits(value, base, lower);
      assert n == |d| && Backwards(tmp[..n], d);
      var digitZeros := if s.hasPrecision && s.precision > n then s.precision - n else 0;
      var printDigits := !(s.hasPrecision && s.precision == 0 && value == 0);
      var total := (if printDigits then n + digitZeros else 0) + if neg then 1 else 0;
      var pad := s.width - total;
      var useZeroPad := s.zeroPad && !s.hasPrecision;
      FieldParts(s, neg, value, base, lower, pad);
      hide LowerChar;
      PutFrame(pad, neg, useZeroPad);
      if printDigits {
        Pad(digitZeros, '0');
        PutBackwards(tmp, n, d);
      }
      ghost var body := if printDigits then Rep('0', digitZeros) + d else "";
      Assoc(old(text), Frame(pad, neg, useZeroPad), Rep('0', digitZeros), d);
      assert text == old(text) + (Frame(pad, neg, useZeroPad) + body);
    }

    /** Padding and sign in front of the digits. */
    method PutFrame(pad: int, neg: bool, useZeroPad: bool)
      requires Valid()
      modifies this, buf
      ensures Valid() && text == old(text) + Frame(pad, neg, useZeroPad)
    {
      hide Rep;
      if pad > 0 && !useZeroPad { Pad(pad, ' '); }
      if neg { Put('-'); }
      if pad > 0 && useZeroPad { Pad(pad, '0'); }
    }

    method PutPointer(v: nat)
      requires Valid() && v < TWO64
      modifies this, buf
      ensures Valid() && text == old(text) + ("0x" + Digits(v, 16, false))
    {
      hide Digits;
      var tmp := new char[32];
      var n := FormatUint(v, 16, tmp);
      PutText("0x");
      PutBackwards(tmp, n, Digits(v, 16, false));
    }

    method PutString(s: Spec, t: string)
      requires Valid()
      modifies this, buf
      ensures Valid() && text == old(text) + Shown(s, t)
    {
      hide Rep;
      var useLen := if s.hasPrecision && s.precision < |t| then s.precision else |t|;
      if s.width - useLen > 0 { Pad(s.width - useLen, ' '); }
      PutText(t[..useLen]);
      assert useLen == |t| ==> t[..useLen] == t;
    }

    /** The switch on the conversion letter. */
    method PutConversion(s: Spec, c: char, a: Arg)
      requires Valid()
      modifies this, buf
      ensures Valid() && text == old(text) + Converted(s, c, a)
    {
      hide Field, Digits, Shown, UnsignedArg, SignedArg;
      ArgRange(a, s.isLong);
      ArgRange(a, true);
      if c == 'd' || c == 'i' {
        var v := SignedArg(a, s.isLong);
        PutNumber(s, v < 0, if v < 0 then -v else v, 10, false);
      } else if c == 'u' {
        PutNumber(s, false, UnsignedArg(a, s.isLong), 10, false);
      } else if c == 'x' || c == 'X' {
        PutNumber(s, false, UnsignedArg(a, s.isLong), 16, c == 'x');
      } else if c == 'p' {
        PutPointer(UnsignedArg(a, true));
      } else if c == 's' {
        PutString(s, TextArg(a));
      } else if c == 'c' {
        Put((Bits(a) % 256) as char);
      } else {
        Put('%');
        Put(c);
      }
    }

    /** One turn of the loop over the format, from `i` to `j`. */
    method PutNext(f: string, i: nat, args: seq<Arg>) returns (j: nat, rest: seq<Arg>)
      requires Valid() && i < |f| && Complete(f, i)
      modifies this, buf
      ensures Valid() && i < j <= |f| && Complete(f, j) && text + Render(f, j, rest) == old(text) + Render(f, i, args)
    {
      hide Converted, SpecAt, Render, Complete, TakesArg;
      rest := args;
      ghost var out := "";
      RenderStep(f, i, args);
      RenderEnd(f, args);
      if f[i] != '%' {
        Put(f[i]);
        out, j := [f[i]], i + 1;
      } else if i + 1 == |f| {
        j := |f|;
      } else if f[i + 1] == '%' {
        Put('%');
        out, j := "%", i + 2;
      } else {
        var s := ReadSpec(f, i + 1);
        var c := f[s.at];
        if TakesArg(c) {
          PutConversion(s, c, First(args));
          out, rest := Converted(s, c, First(args)), Rest(args);
        } else {
          PutConversion(s, c, Null);
          out := Converted(s, c, Null);
        }
        j := s.at + 1;
      }
      Glue(old(text), out, Render(f, j, rest));
    }

    /** The digits, stored least significant first. */
    method PutBackwards(tmp: array<char>, n: nat, ghost d: string)
      requires Valid() && n <= tmp.Length && tmp != buf && n == |d| && Backwards(tmp[..n], d)
      modifies this, buf
      ensures Valid() && text == old(text) + d
    {
      var k := n;
      while k > 0
        invariant Valid() && 0 <= k <= n && text == old(text) + d[..n - k] && Backwards(tmp[..n], d)
      {
        k := k - 1;
        assert tmp[k] == tmp[..n][k] == d[n - 1 - k];
        assert d[..n - k] == d[..n - k - 1] + [d[n - 1 - k]];
        Put(tmp[k]);
      }
      assert d[..n] == d;
    }
  }

  /** A run of decimal digits in the format. */
  method ReadWidth(f: string, i: nat) returns (w: nat, j: nat)
    requires i <= |f|
    ensures j == DigitsEnd(f, i) && w == Decimals(f, i)
  {
    hide Value, DigitValue;
    w, j := 0, i;
    NoValue(10);
    assert f[i..i] == "";
    while j < |f| && IsDigit(f[j])
      invariant i <= j <= |f| && w == Value(f[i..j], 10) && DigitsEnd(f, j) == DigitsEnd(f, i)
    {
      ValueSnoc(f[i..j], f[j], 10);
      assert f[i..j + 1] == f[i..j] + [f[j]];
      DecimalDigit(f[j]);
      w := w * 10 + (f[j] as int - '0' as int);
      j := j + 1;
    }
  }

  lemma DecimalDigit(c: char)
    requires IsDigit(c)
    ensures DigitValue(c) == c as int - '0' as int
  {}

  /** Flags, width, precision and length, as the code scans them. */
  method ReadSpec(f: string, start: nat) returns (s: Spec)
    requires start < |f|
    ensures s == SpecAt(f, start)
  {
    hide Decimals, DigitsEnd;
    var i := start;
    var zeroPad := f[i] == '0';
    if zeroPad { i := i + 1; }
    var width, j := ReadWidth(f, i);
    var hasPrecision, precision := false, 0;
    if j < |f| && f[j] == '.' {
      hasPrecision := true;
      precision, j := ReadWidth(f, j + 1);
    }
    var isLong := j < |f| && f[j] == 'l';
    if isLong {
      j := j + 1;
      if j < |f| && f[j] == 'l' { j := j + 1; }
    }
    s := Spec(zeroPad, width, hasPrecision, precision, isLong, j);
  }

  /** `vsnprintf`: the buffer gets the longest prefix of the text that fits, and a
      terminator; the result is the length of the whole text, as a 32-bit integer. Nothing
      is written behind `size`. */
  method Vsnprintf(buf: array<char>, size: nat, f: string, args: seq<Arg>) returns (r: int)
    requires size <= buf.Length && Complete(f, 0)
    modifies buf
    ensures var out := Render(f, 0, args);
            && r == AsInt(|out|)
            && (size > 0 ==> var k := if |out| < size then |out| else size - 1;
                buf[..k] == out[..k] && buf[k] == 0 as char)
    ensures buf[size..] == old(buf[size..])
  {
    hide Render, Complete;
    var sink := new Sink(buf, size);
    var i, rest := 0, args;
    while i < |f|
      invariant i <= |f| && Complete(f, i) && sink.Valid() && fresh(sink) && sink.buf == buf && sink.size == size
      invariant sink.text + Render(f, i, rest) == Render(f, 0, args)
      invariant sink.beyond == old(buf[size..])
      decreases |f| - i
    {
      i, rest := sink.PutNext(f, i, rest);
    }
    RenderEnd(f, rest);
    sink.Finish();
    r := AsInt(sink.pos);
  }

  /** The conversion of a length to `int`. */
  function AsInt(n: nat): int { var r := n % TWO32; if r >= TWO32 / 2 then r - TWO32 else r }

  function Frame(pad: int, neg: bool, useZeroPad: bool): string {
    (if useZeroPad then "" else Rep(' ', pad)) + (if neg then "-" else "") + (if useZeroPad then Rep('0', pad) else "")
  }

  /** The field as the code computes it. */
  lemma FieldParts(s: Spec, neg: bool, v: nat, base: nat, lower: bool, pad: int)
    requires 2 <= base <= 16
    requires var n := |Digits(v, base, lower)|;
             var zeros := if s.hasPrecision && s.precision > n then s.precision - n else 0;
             pad == s.width - ((if Empty(s, v) then 0 else n + zeros) + if neg then 1 else 0)
    ensures var d := Digits(v, base, lower);
            var zeros := if s.hasPrecision && s.precision > |d| then s.precision - |d| else 0;
            Field(s, neg, v, base, lower) ==
            Frame(pad, neg, s.zeroPad && !s.hasPrecision) + if Empty(s, v) then "" else Rep('0', zeros) + d
  {
    hide Digits;
    var d := Digits(v, base, lower);
    var zeros := if s.hasPrecision && s.precision > |d| then s.precision - |d| else 0;
    assert !Empty(s, v) ==> Body(s, v, base, lower) == Rep('0', zeros) + d;
  }

  lemma Assoc(a: string, b: string, c: string, d: string)
    ensures a + b + c + d == a + (b + (c + d)) && a + b == a + (b + "")
  {
    assert b + "" == b;
  }

  predicate Backwards(t: string, d: string) { |t| == |d| && forall i :: 0 <= i < |t| ==> t[i] == d[|d| - 1 - i] }

  function Pow10(n: nat): nat { if n == 0 then 1 else 10 * Pow10(n - 1) }

  lemma TwentyDigits()
    ensures TWO64 <= Pow10(20)
  {
    assert Pow10(4) == 10000;
    assert Pow10(8) == 10000 * Pow10(4);
    assert Pow10(12) == 10000 * Pow10(8);
    assert Pow10(16) == 10000 * Pow10(12);
    assert Pow10(20) == 10000 * Pow10(16);
  }

  /** `format_uint`: at most twenty digits, least significant first. */
  method FormatUint(v: nat, base: nat, tmp: array<char>) returns (n: nat)
    requires v < TWO64 && (base == 10 || base == 16) && tmp.Length == 32
    modifies tmp
    ensures n <= 20 && Backwards(tmp[..n], Digits(v, base, false))
  {
    hide DigitChar, Digits, Pow10, Backwards;
    n := 0;
    if v == 0 {
      tmp[0] := '0';
      n := 1;
      Zero(base);
      assert tmp[..1] == "0";
      return;
    }
    TwentyDigits();
    var value := v;
    ghost var done := "";
    NoneBackwards(tmp[..0], Digits(v, base, false));
    while value > 0
      invariant n <= 20 && value < Pow10(20 - n) && Backwards(tmp[..n], done)
      invariant Digits(v, base, false) == if value > 0 then Digits(value, base, false) + done else done
      decreases value
    {
      var c := DigitChar(value % base, false);
      NextDigit(v, value, base, 20 - n, tmp[..n], done, c);
      ghost var was := tmp[..n];
      tmp[n] := c;
      assert tmp[..n + 1] == was + [c];
      n := n + 1;
      done := [c] + done;
      value := value / base;
    }
  }

  /** One turn of the loop: the next digit in front of those done. */
  lemma NextDigit(v: nat, value: nat, base: nat, k: nat, t: string, done: string, c: char)
    requires 0 < value < Pow10(k) && (base == 10 || base == 16) && Backwards(t, done)
    requires c == DigitChar(value % base, false) && Digits(v, base, false) == Digits(value, base, false) + done
    ensures k > 0 && value / base < Pow10(k - 1) && value / base < value && Backwards(t + [c], [c] + done)
    ensures Digits(v, base, false) ==
            if value / base > 0 then Digits(value / base, base, false) + ([c] + done) else [c] + done
  {
    hide DigitChar, Digits, Pow10, Backwards;
    Room(value, k, base);
    DigitsStep(value, base);
    Prepend(t, done, c);
    Move(if value < base then "" else Digits(value / base, base, false), c, done);
    Quotient(value, base);
  }

  lemma Quotient(v: nat, base: nat)
    requires v > 0 && (base == 10 || base == 16)
    ensures v / base < v && (v / base > 0 <==> v >= base)
  {
    if base == 10 { assert v / 10 < v; } else { assert v / 16 < v; }
  }

  lemma Glue(a: string, b: string, c: string)
    ensures a + b + c == a + (b + c) && a + "" == a && "" + c == c
  {}

  lemma NoneBackwards(t: string, d: string)
    requires t == ""
    ensures Backwards(t, "") && d + "" == d
  {}

  lemma Zero(base: nat)
    requires base == 10 || base == 16
    ensures Digits(0, base, false) == "0" && Backwards("0", "0")
  {}

  lemma Room(value: nat, k: nat, base: nat)
    requires 0 < value < Pow10(k) && (base == 10 || base == 16)
    ensures k > 0 && value / base < Pow10(k - 1)
  {
    if base == 10 { assert value / 10 < Pow10(k - 1); } else { assert value / 16 < Pow10(k - 1); }
  }

  lemma DigitsStep(v: nat, base: nat)
    requires 2 <= base <= 16
    ensures Digits(v, base, false) == (if v < base then "" else Digits(v / base, base, false))
            + [DigitChar(v % base, false)]
  {}

  lemma Prepend(t: string, d: string, c: char)
    requires Backwards(t, d)
    ensures Backwards(t + [c], [c] + d)
  {}

  lemma Move(head: string, c: char, done: string)
    ensures (head + [c]) + done == head + ([c] + done) && "" + ([c] + done) == [c] + done
  {}

  function LowerChar(c: char): char { if 'A' <= c <= 'F' then c + 32 as char else c }

  method Lower(tmp: array<char>, n: nat)
    requires n <= tmp.Length
    modifies tmp
    ensures forall i :: 0 <= i < n ==> tmp[i] == LowerChar(old(tmp[i]))
  {
    for i := 0 to n
      invariant forall j :: 0 <= j < i ==> tmp[j] == LowerChar(old(tmp[j]))
      invariant forall j :: i <= j < n ==> tmp[j] == old(tmp[j])
    {
      if 'A' <= tmp[i] <= 'F' { tmp[i] := tmp[i] + 32 as char; }
    }
  }

  lemma {:induction false} LowerDigits(v: nat, base: nat)
    requires base == 10 || base == 16
    ensures var d, e := Digits(v, base, false), Digits(v, base, true);
            |d| == |e| && forall i :: 0 <= i < |d| ==> e[i] == LowerChar(d[i])
    decreases v
  {
    if v >= base { LowerDigits(v / base, base); }
  }
}
