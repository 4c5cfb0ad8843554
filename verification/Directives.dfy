/** What the directives of a format print, said of the whole output and in terms of the directive's
    text: flags, width, precision, length field and conversion character. */
module Directives {
  import opened Basics
  import opened PageTables
  import opened Numerals
  import opened Powers
  import opened NumeralsCode
  import opened Format

  /** A directive as it is written behind the '%'.  A width or precision is a numeral, a '*' or empty. */
  datatype Directive = Directive(flags: string, width: string, dot: bool, precision: string, length: string, conversion: char)

  function PrecisionText(d: Directive): string { if d.dot then "." + d.precision else "" }

  function Tail(d: Directive, rest: string): string { d.length + ([d.conversion] + rest) }

  /** The format from the '%' on. */
  function Written(d: Directive, rest: string): string {
    "%" + (d.flags + (d.width + (PrecisionText(d) + Tail(d, rest))))
  }

  predicate IsNumeral(s: string) { s != "" && forall i | 0 <= i < |s| :: '0' <= s[i] <= '9' }

  /** The text of a field stands for the number `n`: a numeral that `atoi` can read, a '*' for which
      an argument gives the number, or nothing. */
  predicate Means(s: string, n: int) {
    if s == "" then n == 0 else s == "*" || (IsNumeral(s) && Eval(s, 10) == n <= 2147483599)
  }

  function Operand(s: string, n: int): seq<Arg> { if s == "*" then [Int(n)] else [] }

  predicate IsLength(s: string) { s == "" || s == "h" || s == "hh" || s == "l" || s == "ll" }

  predicate WellFormed(d: Directive, w: int, p: int) {
    && (forall i | 0 <= i < |d.flags| :: d.flags[i] == '0' || d.flags[i] == '-' || d.flags[i] == '+' || d.flags[i] == ' ' || d.flags[i] == '#')
    && Means(d.width, w) && (d.width != "" ==> d.width[0] != '0')
    && Means(d.precision, p) && (!d.dot ==> d.precision == "")
    && IsLength(d.length)
    && !IsDecimal(d.conversion) && !IsFlag(d.conversion) && d.conversion !in "*.lh%"
  }

  /** A negative precision counts as none. */
  function Positive(n: int): nat { if n < 0 then 0 else n }

  function Magnitude(n: int): nat { if n < 0 then -n else n }

  // ---------- how the fields are read ----------

  function LengthOf(length: string): Length {
    if length == "" then Plain else if length == "h" then Short else if length == "hh" then Char
    else if length == "l" then Long else LongLong
  }

  predicate Ends(rest: string) { rest != "" && !IsDecimal(rest[0]) && !IsFlag(rest[0]) && rest[0] != '*' }

  /** The flags of a text, besides those that are set already. */
  function FlagsOf(s: string, fl: Flags): Flags {
    fl.(zeroPad := fl.zeroPad || '0' in s, left := fl.left || '-' in s, plus := fl.plus || '+' in s,
        space := fl.space || ' ' in s, hash := fl.hash || '#' in s)
  }

  lemma InTail(s: string, c: char)
    requires s != ""
    ensures c in s <==> s[0] == c || c in s[1..]
  {
    assert s == [s[0]] + s[1..];
  }

  lemma FlagsStep(s: string, fl: Flags)
    requires s != "" && IsFlag(s[0])
    ensures FlagsOf(s, fl) == FlagsOf(s[1..], FlagOf(fl, s[0]))
  {
    InTail(s, '0');
    InTail(s, '-');
    InTail(s, '+');
    InTail(s, ' ');
    InTail(s, '#');
  }

  lemma {:induction false} FlagsAre(s: string, rest: string, fl: Flags)
    requires (forall i | 0 <= i < |s| :: IsFlag(s[i])) && rest != "" && !IsFlag(rest[0])
    ensures TakeFlags(s + rest, fl) == (FlagsOf(s, fl), rest)
  {
    hide FlagOf, IsFlag;
    if s == "" {
      assert s + rest == rest;
    } else {
      assert (s + rest)[1..] == s[1..] + rest;
      FlagsStep(s, fl);
      FlagsAre(s[1..], rest, FlagOf(fl, s[0]));
    }
  }

  lemma {:induction false} SkipDigitsIs(s: string, rest: string)
    requires (forall i | 0 <= i < |s| :: '0' <= s[i] <= '9') && Ends(rest)
    ensures SkipDigits(s + rest) == rest
  {
    if s == "" {
      assert s + rest == rest;
    } else {
      assert (s + rest)[1..] == s[1..] + rest;
      SkipDigitsIs(s[1..], rest);
    }
  }

  /** The digits behind a part that was read. */
  lemma {:induction false} AtoiFromIs(done: string, s: string, rest: string)
    requires (forall i | 0 <= i < |done + s| :: '0' <= (done + s)[i] <= '9') && Ends(rest)
    requires Eval(done + s, 10) <= 2147483599
    ensures AtoiFrom(Eval(done, 10), s + rest) == Number(Eval(done + s, 10))
    decreases |s|
  {
    hide Eval, AtoiFrom, DigitValue;
    if s == "" {
      assert s + rest == rest && done + s == done;
      AtoiEnds(Eval(done, 10), rest);
    } else {
      var next := done + [s[0]];
      EvalNext(done, s);
      EvalGrows(next, s[1..]);
      assert (s + rest)[1..] == s[1..] + rest;
      AtoiFromIs(next, s[1..], rest);
      AtoiStep(Eval(done, 10), s + rest);
    }
  }

  lemma AtoiEnds(acc: int, rest: string)
    requires Ends(rest)
    ensures AtoiFrom(acc, rest) == Number(acc)
  {
  }

  lemma AtoiStep(acc: int, s: string)
    requires s != "" && '0' <= s[0] <= '9' && acc * 10 + DigitValue(s[0]) <= 2147483599
    ensures AtoiFrom(acc, s) == AtoiFrom(acc * 10 + DigitValue(s[0]), s[1..])
  {
  }

  lemma EvalNext(done: string, s: string)
    requires s != "" && forall i | 0 <= i < |done + s| :: '0' <= (done + s)[i] <= '9'
    ensures var next := done + [s[0]];
            && next + s[1..] == done + s && Eval(next, 10) == Eval(done, 10) * 10 + DigitValue(s[0])
            && '0' <= s[0] <= '9' && forall i | 0 <= i < |next| :: '0' <= next[i] <= '9'
  {
    var next := done + [s[0]];
    assert next[..|done|] == done && next + s[1..] == done + s;
    assert forall i | 0 <= i < |next| :: next[i] == (done + s)[i];
    assert (done + s)[|done|] == s[0];
  }

  lemma {:induction false} EvalGrows(a: string, b: string)
    requires forall i | 0 <= i < |a + b| :: '0' <= (a + b)[i] <= '9'
    ensures 0 <= Eval(a, 10) <= Eval(a + b, 10)
    decreases |a| + |b|
  {
    if b != "" {
      var b' := b[..|b| - 1];
      assert (a + b)[..|a + b| - 1] == a + b';
      assert forall i | 0 <= i < |a + b'| :: (a + b')[i] == (a + b)[i];
      EvalGrows(a, b');
    } else {
      assert a + b == a;
      if a != "" {
        var a' := a[..|a| - 1];
        assert a' + "" == a';
        assert forall i | 0 <= i < |a'| :: a'[i] == (a + b)[i];
        EvalGrows(a', "");
      }
    }
  }

  lemma NumeralIs(s: string, n: int, rest: string)
    requires IsNumeral(s) && Eval(s, 10) == n <= 2147483599 && Ends(rest)
    ensures Atoi(s + rest) == Number(n)
  {
    hide AtoiFrom, Eval, Atoi, Ends;
    assert "" + s == s;
    EvalNothing();
    AtoiFromIs("", s, rest);
    assert (s + rest)[0] == s[0];
    AtoiPlain(s + rest);
  }

  lemma AtoiPlain(s: string)
    requires s != "" && '0' <= s[0] <= '9'
    ensures Atoi(s) == AtoiFrom(0, s)
  {
    hide AtoiFrom;
  }

  lemma EvalNothing()
    ensures Eval("", 10) == 0
  {
  }

  lemma FieldIs(s: string, n: int, rest: string, args: seq<Arg>)
    requires Means(s, n) && Ends(rest)
    ensures TakeField(s + rest, Operand(s, n) + args) == Value(n, rest, args, s == "*")
  {
    hide Eval, Atoi, SkipDigits;
    var f := s + rest;
    if s == "" {
      assert f == rest;
      assert Operand(s, n) + args == args;
    } else if s == "*" {
      assert f[0] == '*' && f[1..] == rest && (Operand(s, n) + args)[1..] == args;
    } else {
      assert f[0] == s[0];
      assert Operand(s, n) + args == args;
      NumeralIs(s, n, rest);
      SkipDigitsIs(s, rest);
    }
  }

  lemma LengthTaken(length: string, g: string)
    requires IsLength(length) && Ends(g) && g[0] != 'h' && g[0] != 'l'
    ensures TakeLength(length + g) == (LengthOf(length), g) && Ends(length + g)
  {
    var t := length + g;
    if length == "" {
      assert t == g;
    } else if |length| == 1 {
      assert t[0] == length[0] && t[1..] == g;
    } else {
      assert t[0] == length[0] && t[2..] == g && t[1..][0] == length[1];
    }
  }

  lemma LengthIs(d: Directive, w: int, p: int, rest: string)
    requires WellFormed(d, w, p)
    ensures TakeLength(Tail(d, rest)) == (LengthOf(d.length), [d.conversion] + rest) && Ends(Tail(d, rest))
  {
    hide TakeLength, LengthOf, Means;
    var g := [d.conversion] + rest;
    assert g[0] == d.conversion;
    LengthTaken(d.length, g);
  }

  /** The flags as the conversion sees them: a negative width argument is a '-' flag. */
  function Seen(d: Directive, w: int): Flags {
    FlagsOf(d.flags, NO_FLAGS).(left := '-' in d.flags || w < 0, precision := d.dot)
  }

  /** The arguments for width and precision, and those behind them. */
  function Operands(d: Directive, w: int, p: int, args: seq<Arg>): seq<Arg> {
    Operand(d.width, w) + (Operand(d.precision, p) + args)
  }

  lemma PrecisionIs(d: Directive, w: int, p: int, rest: string, args: seq<Arg>)
    requires WellFormed(d, w, p)
    ensures var f := PrecisionText(d) + Tail(d, rest);
            && Ends(f) && (First(f) == '.' <==> d.dot)
            && (d.dot ==> TakeField(f[1..], Operand(d.precision, p) + args) == Value(p, Tail(d, rest), args, d.precision == "*"))
            && (!d.dot ==> p == 0 && f == Tail(d, rest) && Operand(d.precision, p) + args == args)
  {
    hide TakeField, Tail, TakeLength, Eval;
    var f, t := PrecisionText(d) + Tail(d, rest), Tail(d, rest);
    LengthIs(d, w, p, rest);
    TailStarts(d, w, p, rest);
    if d.dot {
      assert f[0] == '.' && f[1..] == d.precision + t;
      FieldIs(d.precision, p, t, args);
    } else {
      assert f == t;
      assert Operand(d.precision, p) + args == args;
    }
  }

  lemma TailStarts(d: Directive, w: int, p: int, rest: string)
    requires WellFormed(d, w, p)
    ensures Tail(d, rest)[0] != '.' && Tail(d, rest)[0] != '%'
  {
    assert Tail(d, rest)[0] == (d.length + [d.conversion])[0];
  }

  lemma SpecIs(d: Directive, w: int, p: int, rest: string, args: seq<Arg>)
    requires WellFormed(d, w, p)
    ensures TakeSpec(Written(d, rest)[1..], Operands(d, w, p, args))
            == Spec(Seen(d, w), Magnitude(w), Positive(p), LengthOf(d.length), [d.conversion] + rest, d.dot && d.precision == "*", args)
  {
    hide TakeField, TakeFlags, TakeLength, Tail, Means, LengthOf, Operand, PrecisionText, Eval;
    var f3 := Tail(d, rest);
    var f2 := PrecisionText(d) + f3;
    var f1 := d.width + f2;
    var f := d.flags + f1;
    assert Written(d, rest)[1..] == f;
    LengthIs(d, w, p, rest);
    PrecisionIs(d, w, p, rest, args);
    FieldIs(d.width, w, f2, Operand(d.precision, p) + args);
    WidthStarts(d, w, p, f2);
    FlagsAre(d.flags, f1, NO_FLAGS);
  }

  lemma WidthStarts(d: Directive, w: int, p: int, rest: string)
    requires WellFormed(d, w, p) && Ends(rest)
    ensures d.width + rest != "" && !IsFlag((d.width + rest)[0])
  {
    assert (d.width + rest)[0] == if d.width == "" then rest[0] else d.width[0];
  }

  /** Text in front of what else is printed. */
  function After(t: string, out: Output): Output {
    match out
    case Failed => Failed
    case Printed(u) => Printed(t + u)
  }

  /** A directive at the start of a format. */
  lemma RenderDirective(d: Directive, w: int, p: int, rest: string, args: seq<Arg>)
    requires WellFormed(d, w, p)
    ensures var f, starred := Written(d, rest), d.dot && d.precision == "*";
            var s := Spec(Seen(d, w), Magnitude(w), Positive(p), LengthOf(d.length), [d.conversion] + rest, starred, args);
            && |rest| + 1 < |f| && (starred ==> |f| > 2)
            && Render(f, Operands(d, w, p, args))
               == match Format.Convert(f, s) case Unfit => Failed case Piece(t, g, args') => After(t, Render(g, args'))
  {
    hide TakeSpec, Format.Convert, Seen, Operands, Tail, Means, LengthOf, PrecisionText;
    var f := Written(d, rest);
    WrittenLonger(d, rest);
    WrittenStarts(d, w, p, rest);
    SpecIs(d, w, p, rest, args);
    assert f[0] == '%' && f[1..] != "" && f[1..][0] == f[1];
  }

  lemma WrittenLonger(d: Directive, rest: string)
    ensures |Written(d, rest)| >= |rest| + 2 && Written(d, rest)[0] == '%'
    ensures d.dot ==> |Written(d, rest)| > 2
  {
  }

  lemma WrittenStarts(d: Directive, w: int, p: int, rest: string)
    requires WellFormed(d, w, p)
    ensures |Written(d, rest)| > 1 && Written(d, rest)[1] != '%'
  {
    hide Tail, Eval;
    var f3 := Tail(d, rest);
    var f2 := PrecisionText(d) + f3;
    var f1 := d.width + f2;
    TailStarts(d, w, p, rest);
    LengthIs(d, w, p, rest);
    assert f2[0] == if d.dot then '.' else f3[0];
    assert f1[0] == if d.width == "" then f2[0] else d.width[0];
    assert Written(d, rest)[1] == (d.flags + f1)[0] == if d.flags == "" then f1[0] else d.flags[0];
  }

  // ---------- numbers ----------

  /** One more than the largest number that the length field leaves. */
  function Modulus(length: string): nat {
    if length == "hh" then 0x100 else if length == "h" then 0x1_0000 else if length == "" then 0x1_0000_0000
    else 0x1_0000_0000_0000_0000
  }

  function Radix(c: char): (r: nat)
    ensures 8 <= r <= 16
  {
    if c == 'x' || c == 'X' || c == 'p' then 16 else if c == 'o' then 8 else 10
  }

  predicate IsSigned(c: char) { c == 'd' || c == 'i' }

  /** The number that is meant by an argument: reduced to the range of the length field, which is that
      of two's complement for a signed conversion; pointers have 64 bits. */
  predicate Stands(n: int, v: int, length: string, c: char) {
    var m := if c == 'p' then 0x1_0000_0000_0000_0000 else Modulus(length);
    && n % m == v % m
    && if IsSigned(c) then -m <= 2 * n < m else 0 <= n < m
  }

  lemma NumberTaken(v: int, length: string, c: char) returns (n: int)
    requires IsLength(length)
    ensures Stands(n, v, length, c) && Magnitude(n) < WORDS
    ensures NumberOf(c, LengthOf(length), v) == (Wrap(n), n < 0)
  {
    if IsSigned(c) {
      n := AsSigned(v, SizeOf(LengthOf(length)));
      SignedStands(n, v, Modulus(length));
    } else if c == 'p' {
      n := Wrap(v);
    } else {
      n := AsUnsigned(v, SizeOf(LengthOf(length)));
      UnsignedStands(n, v, Modulus(length));
    }
  }

  lemma SignedStands(n: int, v: int, m: int)
    requires m == 0x100 || m == 0x1_0000 || m == 0x1_0000_0000 || m == 0x1_0000_0000_0000_0000
    requires n == if v % m < m / 2 then v % m else v % m - m
    ensures n % m == v % m && -m <= 2 * n < m
  {
  }

  lemma UnsignedStands(n: int, v: int, m: nat)
    requires m == 0x100 || m == 0x1_0000 || m == 0x1_0000_0000 || m == 0x1_0000_0000_0000_0000
    requires n == v % m
    ensures n % m == v % m && 0 <= n < m <= WORDS
  {
  }

  /** The flags that are left for a number. */
  function Kept(d: Directive, w: int): Flags {
    Flags('0' in d.flags && !d.dot, '-' in d.flags || w < 0, '+' in d.flags && IsSigned(d.conversion),
          ' ' in d.flags && IsSigned(d.conversion), '#' in d.flags && Radix(d.conversion) != 10, d.conversion == 'X', d.dot)
  }

  /** A number directive with any flags, width and precision, in front of any format. */
  lemma NumberDirective(d: Directive, w: int, p: int, v: int, rest: string, args: seq<Arg>) returns (n: int)
    requires WellFormed(d, w, p) && d.conversion in "diuxXop"
    ensures Stands(n, v, d.length, d.conversion) && Magnitude(n) < WORDS
    ensures Render(Written(d, rest), Operands(d, w, p, [Int(v)] + args))
            == After(Ntoa(Wrap(n), Radix(d.conversion), n < 0, Positive(p), Magnitude(w), Kept(d, w)), Render(rest, args))
  {
    hide Ntoa, Render, Operands, Written, Means, NumberOf, NumberFlags, Seen, Kept, Stands, LengthOf, Wrap;
    var all := [Int(v)] + args;
    assert all[0] == Int(v) && all[1..] == args && ([d.conversion] + rest)[1..] == rest;
    RenderDirective(d, w, p, rest, all);
    n := NumberTaken(v, d.length, d.conversion);
    FlagsKept(d, w);
  }

  lemma FlagsKept(d: Directive, w: int)
    ensures NumberFlags(Seen(d, w), d.conversion) == Kept(d, w)
  {
    hide Seen;
    SeenIs(d, w);
  }

  lemma SeenIs(d: Directive, w: int)
    ensures Seen(d, w) == Flags('0' in d.flags, '-' in d.flags || w < 0, '+' in d.flags, ' ' in d.flags, '#' in d.flags, false, d.dot)
  {
  }

  /** The digits of a number in a base, without leading zeros: there is exactly one such text. */
  predicate Shows(t: string, base: nat, n: int) {
    && t != "" && Eval(t, base) == n && (|t| > 1 ==> t[0] != '0')
    && forall i | 0 <= i < |t| :: ('0' <= t[i] <= '9' || 'a' <= t[i] <= 'f') && 0 <= DigitValue(t[i]) < base
  }

  lemma {:induction false} DigitsBelow(v: nat, base: nat)
    requires 2 <= base <= 16
    ensures forall i | 0 <= i < |Digits(v, base)| :: 0 <= DigitValue(Digits(v, base)[i]) < base
  {
    hide Digits;
    var q, r := DigitsStep(v, base);
    if q > 0 { DigitsBelow(q, base); }
  }

  lemma DigitsShowIt(v: nat, base: nat)
    requires 2 <= base <= 16
    ensures Shows(Reverse(Digits(v, base)), base, v)
  {
    hide Digits, Eval, DigitValue;
    DigitsShow(v, base);
    DigitsAre(v, base);
    DigitsBelow(v, base);
    if v == 0 { ZeroDigits(base); }
  }

  lemma ZeroDigits(base: nat)
    requires 2 <= base <= 16
    ensures |Digits(0, base)| == 1
  {
  }

  /** What every number directive prints: the digits of the number, laid out in the field that flags,
      width and precision ask for. */
  lemma NumberPrints(d: Directive, w: int, p: int, v: int, rest: string, args: seq<Arg>) returns (n: int, t: string)
    requires WellFormed(d, w, p) && d.conversion in "diuxXop" && Magnitude(w) < SIZE && p < SIZE
    requires '#' in d.flags ==> Magnitude(w) < SIZE - 2 && p < SIZE - 2
    ensures Stands(n, v, d.length, d.conversion)
    ensures if d.dot && n == 0 then t == "" else Shows(t, Radix(d.conversion), n % 0x1_0000_0000_0000_0000)
    ensures var fl := Kept(d, w);
            var text := if fl.hash && n != 0 then LaidAlternate(t, Radix(d.conversion), n < 0, Positive(p), Magnitude(w), fl)
                        else Laid(t, n < 0, Positive(p), Magnitude(w), fl);
            Render(Written(d, rest), Operands(d, w, p, [Int(v)] + args)) == After(text, Render(rest, args))
  {
    hide Ntoa, Render, Operands, Written, Means, Digits, Laid, LaidAlternate, Shows, WellFormed, Reverse, Kept;
    n := NumberDirective(d, w, p, v, rest, args);
    var base, fl := Radix(d.conversion), Kept(d, w);
    HashIsAsked(d, w);
    WrapZero(n);
    t := if d.dot && Wrap(n) == 0 then "" else Reverse(Digits(Wrap(n), base));
    DigitsShowIt(Wrap(n), base);
    if fl.hash && n != 0 {
      NtoaLaysAlternate(Wrap(n), base, n < 0, Positive(p), Magnitude(w), fl);
    } else {
      NtoaLays(Wrap(n), base, n < 0, Positive(p), Magnitude(w), fl);
    }
  }

  lemma HashIsAsked(d: Directive, w: int)
    ensures Kept(d, w).precision == d.dot && (Kept(d, w).hash ==> '#' in d.flags)
  {
  }

  lemma WrapZero(n: int)
    requires Magnitude(n) < WORDS
    ensures Wrap(n) == 0 <==> n == 0
  {
  }

  lemma WithoutField(flags: string, length: string, c: char, v: int, rest: string, args: seq<Arg>)
    requires IsLength(length) && c in "diuxXop" && (flags == "" || flags == "#")
    ensures var d := Directive(flags, "", false, "", length, c);
            && WellFormed(d, 0, 0) && Written(d, rest) == "%" + flags + length + [c] + rest
            && Operands(d, 0, 0, [Int(v)] + args) == [Int(v)] + args
  {
    hide IsLength;
    var d := Directive(flags, "", false, "", length, c);
    assert Written(d, rest) == "%" + flags + length + [c] + rest;
    assert Operands(d, 0, 0, [Int(v)] + args) == [Int(v)] + args;
  }

  /** A directive without options: a minus sign for a negative number, and digits. */
  lemma PlainNumber(length: string, c: char, v: int, rest: string, args: seq<Arg>) returns (n: int, t: string)
    requires IsLength(length) && c in "diuxXop"
    ensures Stands(n, v, length, c) && Shows(t, Radix(c), n % 0x1_0000_0000_0000_0000)
    ensures Render("%" + length + [c] + rest, [Int(v)] + args) == After((if n < 0 then "-" else "") + t, Render(rest, args))
  {
    hide Render, Shows, Laid, Written, WellFormed, Operands, Stands;
    var d := Directive("", "", false, "", length, c);
    WithoutField("", length, c, v, rest, args);
    n, t := NumberPrints(d, 0, 0, v, rest, args);
    assert "%" + "" + length + [c] + rest == "%" + length + [c] + rest;
    LaidPlainly(t, n < 0, Kept(d, 0));
  }

  lemma LaidPlainly(t: string, negative: bool, fl: Flags)
    requires !fl.left && !fl.plus && !fl.space && !fl.zeroPad
    ensures Laid(t, negative, 0, 0, fl) == (if negative then "-" else "") + t
  {
    assert Repeat('0', 0 - |t|) + t == t;
    var sign := if negative then "-" else "";
    assert sign + Repeat(' ', 0 - |t|) + t == sign + t;
  }

  /** The alternate form of a number that is not zero, without a field. */
  lemma AlternateNumber(length: string, c: char, v: int, rest: string, args: seq<Arg>) returns (n: int, t: string)
    requires IsLength(length) && c in "xXop"
    ensures Stands(n, v, length, c) && Shows(t, Radix(c), n)
    ensures n != 0 ==>
              Render("%#" + length + [c] + rest, [Int(v)] + args)
              == After((if c == 'o' then "0" else if c == 'X' then "0X" else "0x") + t, Render(rest, args))
  {
    hide Render, Shows, Digits, Ntoa, Reverse, Written, WellFormed, Operands;
    var d := Directive("#", "", false, "", length, c);
    assert d.flags[0] == '#';
    WithoutField("#", length, c, v, rest, args);
    n := NumberDirective(d, 0, 0, v, rest, args);
    assert "%" + "#" + length + [c] + rest == "%#" + length + [c] + rest;
    t := Reverse(Digits(Wrap(n), Radix(c)));
    DigitsShowIt(Wrap(n), Radix(c));
    if n != 0 { AlternateForm(Wrap(n), Radix(c), c == 'X'); }
  }

  lemma SixteenIsNumeral()
    ensures IsNumeral("16") && Eval("16", 10) == 16
  {
    assert "16"[..1] == "1" && "1"[..0] == "";
  }

  lemma LaidToPrecision(t: string, prec: nat, fl: Flags)
    requires !fl.left && !fl.plus && !fl.space && !fl.zeroPad
    ensures Laid(t, false, prec, 0, fl) == Repeat('0', prec - |t|) + t
  {
    hide Repeat;
    var body := Repeat('0', prec - |t|) + t;
    assert "" + Repeat(' ', 0 - |body|) + body == body;
  }

  /** A number that does not start with a zero is at least the power of its leading place. */
  lemma {:induction false} LeadingPlace(t: string)
    requires t != "" && t[0] != '0' && forall i | 0 <= i < |t| :: '0' <= t[i] <= '9' || 'a' <= t[i] <= 'f'
    ensures Eval(t, 16) >= Pow(16, |t| - 1)
  {
    if |t| == 1 {
      assert t[..0] == "";
    } else {
      LeadingPlace(t[..|t| - 1]);
    }
  }

  lemma WordsAreSixteen(k: nat)
    ensures Pow(16, 16) == 0x1_0000_0000_0000_0000 && (k >= 16 ==> Pow(16, k) >= Pow(16, 16))
  {
    assert Pow(16, 4) == 0x1_0000 && Pow(16, 8) == 0x1_0000 * Pow(16, 4) && Pow(16, 12) == 0x1_0000 * Pow(16, 8);
    assert Pow(16, 16) == 0x1_0000 * Pow(16, 12);
    if k >= 16 { PowGrows(16, 16, k); }
  }

  lemma ShowsFew(t: string, n: int)
    requires Shows(t, 16, n) && 0 <= n < 0x1_0000_0000_0000_0000
    ensures |t| <= 16
  {
    hide Eval, Pow;
    if |t| > 1 {
      LeadingPlace(t);
      WordsAreSixteen(|t| - 1);
    }
  }

  lemma {:induction false} LeadingZeros(t: string, k: int, base: nat)
    ensures Eval(Repeat('0', k) + t, base) == Eval(t, base)
    decreases |t|, if k < 0 then 0 else k
  {
    var s := Repeat('0', k) + t;
    if t != "" {
      LeadingZeros(t[..|t| - 1], k, base);
      assert s[..|s| - 1] == Repeat('0', k) + t[..|t| - 1];
    } else if k > 0 {
      LeadingZeros(t, k - 1, base);
      assert s[..|s| - 1] == Repeat('0', k - 1) + t;
    } else {
      assert s == t;
    }
  }

  lemma SixteenShown(t: string, n: int)
    requires 0 <= n < 0x1_0000_0000_0000_0000 && if n == 0 then t == "" else Shows(t, 16, n)
    ensures Eval(t, 16) == n && forall i | 0 <= i < |t| :: '0' <= t[i] <= '9' || 'a' <= t[i] <= 'f'
  {
  }

  /** A hexadecimal number of 64 bits with the precision 16, as addresses are printed: sixteen
      digits. */
  lemma SixteenDigits(v: int, rest: string, args: seq<Arg>) returns (t: string)
    ensures |t| == 16 && Eval(t, 16) == v % 0x1_0000_0000_0000_0000
    ensures forall i | 0 <= i < 16 :: '0' <= t[i] <= '9' || 'a' <= t[i] <= 'f'
    ensures Render("%.16lx" + rest, [Int(v)] + args) == After(t, Render(rest, args))
  {
    hide Render, Shows, Eval, Laid;
    var d := Directive("", "", true, "16", "l", 'x');
    SixteenIsNumeral();
    var n, u := NumberPrints(d, 0, 16, v, rest, args);
    assert Written(d, rest) == "%.16lx" + rest;
    assert Operands(d, 0, 16, [Int(v)] + args) == [Int(v)] + args;
    t := Repeat('0', 16 - |u|) + u;
    LaidToPrecision(u, 16, Kept(d, 0));
    if n != 0 { ShowsFew(u, n); }
    LeadingZeros(u, 16 - |u|, 16);
    SixteenShown(u, n);
  }

  // ---------- characters and texts ----------

  /** A text filled with spaces to the width; a negative one, or a '-' flag, puts the text first. */
  function InField(t: string, w: int, flags: string): string {
    var spaces := Repeat(' ', Magnitude(w) - |t|);
    if w < 0 || '-' in flags then t + spaces else spaces + t
  }

  /** The first `p` characters. */
  function Cut(t: string, dot: bool, p: int): string {
    if dot && Positive(p) < |t| then t[..Positive(p)] else t
  }

  lemma JustifiedIs(t: string, w: int, d: Directive)
    ensures Justified(t, Magnitude(w), Seen(d, w).left) == InField(t, w, d.flags)
  {
  }

  /** A character with any flags and width. */
  lemma CharPrints(d: Directive, w: int, p: int, v: int, rest: string, args: seq<Arg>)
    requires WellFormed(d, w, p) && d.conversion == 'c' && Magnitude(w) <= SIZE
    ensures Render(Written(d, rest), Operands(d, w, p, [Int(v)] + args))
            == After(InField([(v % 256) as char], w, d.flags), Render(rest, args))
  {
    hide Render, Operands, Written, Means, Justified, InField, LengthOf;
    var all := [Int(v)] + args;
    assert all[0] == Int(v) && all[1..] == args && ([d.conversion] + rest)[1..] == rest;
    RenderDirective(d, w, p, rest, all);
    JustifiedIs([(v % 256) as char], w, d);
  }

  /** A text with any flags, width and precision, as long as what it prints fits the scratch buffer. */
  lemma TextPrints(d: Directive, w: int, p: int, t: string, rest: string, args: seq<Arg>)
    requires WellFormed(d, w, p) && d.conversion == 's' && Magnitude(w) <= SIZE && |Cut(t, d.dot, p)| <= SIZE
    ensures Render(Written(d, rest), Operands(d, w, p, [Text(t)] + args))
            == After(InField(Cut(t, d.dot, p), w, d.flags), Render(rest, args))
  {
    hide Render, Operands, Written, Means, Justified, InField, LengthOf;
    var all := [Text(t)] + args;
    assert all[0] == Text(t) && all[1..] == args && ([d.conversion] + rest)[1..] == rest;
    RenderDirective(d, w, p, rest, all);
    JustifiedIs(Cut(t, d.dot, p), w, d);
  }

  // ---------- anything else ----------

  /** Without a known conversion the '%' is printed and what follows is text; but a '*' for the
      precision has moved the start by one character, so that the '%' is left out. */
  lemma OtherPrints(d: Directive, w: int, p: int, rest: string, args: seq<Arg>)
    requires WellFormed(d, w, p) && d.conversion !in "diuxXopcs"
    ensures var f := Written(d, rest);
            && |f| > (if d.precision == "*" then 2 else 1)
            && Render(f, Operands(d, w, p, args))
               == if d.precision == "*" then After([f[1]], Render(f[2..], args)) else After("%", Render(f[1..], args))
  {
    hide Render, Operands, Written, Means, LengthOf, Seen;
    var f := Written(d, rest);
    RenderDirective(d, w, p, rest, args);
    WrittenLonger(d, rest);
    if d.precision == "*" {
      assert f[1..][..1] == [f[1]] && f[1..][1..] == f[2..];
    } else {
      assert f[..1] == "%";
    }
  }
}