/** Number formatting (`_ntoa`): the characters it makes, and when they still show the number. */
module Numerals {
  import opened PageTables
  import opened Powers

  const SIZE: nat := 256  // the formatter's scratch buffer

  datatype Flags = Flags(zeroPad: bool, left: bool, plus: bool, space: bool, hash: bool, upper: bool, precision: bool)

  function DigitChar(d: nat): char
    requires d < 16
  {
    if d < 10 then ('0' as int + d) as char else ('a' as int + d - 10) as char
  }

  function DigitValue(c: char): int { if c <= '9' then c as int - '0' as int else c as int - 'a' as int + 10 }

  /** The digits of a number, the least significant first.  There is always one. */
  function Digits(v: nat, base: nat): (s: string)
    requires 2 <= base <= 16
    ensures |s| > 0
  {
    [DigitChar(v % base)] + if v / base == 0 then "" else Digits(v / base, base)
  }

  /** The number that a digit string shows, the most significant digit first. */
  function Eval(s: string, base: nat): int {
    if s == "" then 0 else Eval(s[..|s| - 1], base) * base + DigitValue(s[|s| - 1])
  }

  function Reverse(s: string): (t: string)
    ensures |t| == |s| && forall i | 0 <= i < |s| :: t[i] == s[|s| - 1 - i]
  {
    seq(|s|, i requires 0 <= i < |s| => s[|s| - 1 - i])
  }

  function Min(a: nat, b: nat): nat { if a < b then a else b }

  /** Filled up to length `n`, as far as the buffer goes. */
  function PadTo(s: string, n: nat, c: char): (t: string)
    ensures s <= t && |t| == (if |s| < Min(n, SIZE) then Min(n, SIZE) else |s|) && forall i | |s| <= i < |t| :: t[i] == c
  {
    s + seq(if |s| < Min(n, SIZE) then Min(n, SIZE) - |s| else 0, _ => c)
  }

  function Push(s: string, c: char): string { if |s| < SIZE then s + [c] else s }

  // ---------- the steps of the conversion, on the reversed text ----------

  function Start(v: nat, base: nat, fl: Flags): string
    requires 2 <= base <= 16
  {
    if fl.precision && v == 0 then "" else Digits(v, base)
  }

  /** With zero padding, a sign takes one column of the width. */
  function Width(width: nat, negative: bool, fl: Flags): nat {
    if width > 0 && !fl.left && fl.zeroPad && (negative || fl.plus || fl.space) then width - 1 else width
  }

  function Padded(s: string, prec: nat, width: nat, fl: Flags): string {
    if fl.left then s
    else PadTo(PadTo(PadTo(s, prec, '0'), if fl.zeroPad then width else 0, '0'), width, ' ')
  }

  /** How many characters the alternate form takes back before it adds its prefix. */
  function TakenBack(s: string, base: nat, prec: nat, width: nat, fl: Flags): (r: nat)
    ensures r <= |s|
  {
    if fl.precision || s == "" || (|s| != prec && |s| != width) then 0
    else if |s| > 1 && base == 16 then 2 else 1
  }

  function Prefixed(s: string, base: nat, fl: Flags): string {
    Push(if base == 16 then Push(s, if fl.upper then 'X' else 'x') else s, '0')
  }

  function Hashed(s: string, base: nat, prec: nat, width: nat, fl: Flags): string {
    if !fl.hash then s else Prefixed(s[..|s| - TakenBack(s, base, prec, width, fl)], base, fl)
  }

  function Signed(s: string, negative: bool, fl: Flags): string {
    if negative then Push(s, '-') else if fl.plus then Push(s, '+') else if fl.space then Push(s, ' ') else s
  }

  /** The text before it is reversed. */
  function Backwards(v: nat, base: nat, negative: bool, prec: nat, width: nat, fl: Flags): string
    requires 2 <= base <= 16
  {
    var w, fl' := Width(width, negative, fl), fl.(hash := fl.hash && v != 0);
    Signed(Hashed(Padded(Start(v, base, fl), prec, w, fl), base, prec, w, fl'), negative, fl)
  }

  /** `_ntoa` */
  function Ntoa(v: nat, base: nat, negative: bool, prec: nat, width: nat, fl: Flags): string
    requires 2 <= base <= 16
  {
    var t := Reverse(Backwards(v, base, negative, prec, width, fl));
    if fl.left then PadTo(t, width, ' ') else t
  }

  // ---------- digits ----------

  /** The least significant digit and the rest. */
  lemma DigitsStep(v: nat, base: nat) returns (q: nat, r: nat)
    requires 2 <= base <= 16
    ensures v == q * base + r && r < base && q <= v && (q > 0 ==> q < v) && q == v / base
    ensures Digits(v, base) == [DigitChar(r)] + if q == 0 then "" else Digits(q, base)
  {
    hide DigitChar;
    q, r := v / base, v % base;
    DivisionStep(v, base);
  }

  lemma DivisionStep(v: nat, base: nat)
    requires 2 <= base
    ensures var q, r := v / base, v % base; v == q * base + r && r < base && q <= v && (q > 0 ==> q < v)
  {
    var q, r := v / base, v % base;
    assert v == q * base + r;
    assert q * 2 <= q * base;
  }

  lemma {:induction false} DigitsShow(v: nat, base: nat)
    requires 2 <= base <= 16
    ensures Eval(Reverse(Digits(v, base)), base) == v
  {
    hide Reverse, DigitValue, DigitChar, Digits;
    var s := Digits(v, base);
    var t := Reverse(s);
    var q, r := DigitsStep(v, base);
    DigitCharShows(r);
    assert t[|t| - 1] == s[0];
    if q > 0 {
      DigitsShow(q, base);
      assert t[..|t| - 1] == Reverse(Digits(q, base));
    } else {
      assert t[..|t| - 1] == "";
    }
  }

  lemma DigitCharShows(d: nat)
    requires d < 16
    ensures DigitValue(DigitChar(d)) == d
  {
  }

  lemma {:induction false} DigitsFew(v: nat, base: nat, k: nat)
    requires 8 <= base <= 16 && v < Pow(8, k) && k > 0
    ensures |Digits(v, base)| <= k
  {
    hide Digits, DigitChar;
    var q, r := DigitsStep(v, base);
    if q > 0 {
      if k == 1 { assert Pow(8, 1) == 8 * Pow(8, 0); }
      QuotientSmall(v, base, Pow(8, k - 1), q, r);
      DigitsFew(q, base, k - 1);
    }
  }

  lemma QuotientSmall(v: nat, base: nat, p: nat, q: nat, r: nat)
    requires base >= 8 && v < 8 * p && v == q * base + r
    ensures q < p
  {
    assert q * 8 <= q * base;
  }

  /** A machine word has at most 22 digits in these bases. */
  lemma WordDigits(v: Word, base: nat)
    requires 8 <= base <= 16
    ensures |Digits(v, base)| <= 22
  {
    assert Pow(8, 4) == 4096 && Pow(8, 8) == 4096 * Pow(8, 4) && Pow(8, 12) == 4096 * Pow(8, 8)
           && Pow(8, 16) == 4096 * Pow(8, 12) && Pow(8, 20) == 4096 * Pow(8, 16) && Pow(8, 22) == 64 * Pow(8, 20);
    DigitsFew(v, base, 22);
  }

  predicate IsDigit(c: char) { '0' <= c <= '9' || 'a' <= c <= 'f' }

  lemma {:induction false} DigitsAre(v: nat, base: nat)
    requires 2 <= base <= 16
    ensures forall i | 0 <= i < |Digits(v, base)| :: IsDigit(Digits(v, base)[i])
    ensures v > 0 ==> Digits(v, base)[|Digits(v, base)| - 1] != '0'
  {
    hide Digits;
    var q, r := DigitsStep(v, base);
    if q > 0 { DigitsAre(q, base); }
  }

  // ---------- what the output shows ----------

  /** The alternate form drops digits.  With `n` digits to be put and the field asked for by precision
      and width, that is when the field has exactly `n` columns, or, in base 16 and not left-justified,
      one more. */
  predicate Eats(v: nat, base: nat, negative: bool, prec: nat, width: nat, fl: Flags)
    requires 2 <= base <= 16
  {
    var n, w := |Digits(v, base)|, Width(width, negative, fl);
    var field := if prec > w then prec else w;
    && fl.hash && !fl.precision && v != 0
    && if fl.left then prec == n || w == n else field == n || (base == 16 && field == n + 1)
  }

  /** In terms of the conversion: the take-back is longer than the padding. */
  lemma EatsIsTakeBack(v: Word, base: nat, negative: bool, prec: nat, width: nat, fl: Flags)
    requires 8 <= base <= 16 && v != 0
    ensures var d, w := Digits(v, base), Width(width, negative, fl);
            var s := Padded(d, prec, w, fl);
            Eats(v, base, negative, prec, width, fl) <==> fl.hash && |s| - TakenBack(s, base, prec, w, fl) < |d|
  {
    hide Digits, Width;
    WordDigits(v, base);
  }

  lemma HashedKeeps(d: string, s: string, base: nat, prec: nat, width: nat, fl: Flags)
    requires d <= s && |s| - (if fl.hash then TakenBack(s, base, prec, width, fl) else 0) >= |d|
    ensures d <= Hashed(s, base, prec, width, fl)
  {
  }

  lemma HashedEats(d: string, s: string, base: nat, prec: nat, width: nat, fl: Flags)
    requires d <= s && fl.hash && |s| - TakenBack(s, base, prec, width, fl) < |d| && |s| <= SIZE
    requires d != "" && d[|d| - 1] != '0' && forall i | 0 <= i < |d| :: IsDigit(d[i])
    ensures var t := Hashed(s, base, prec, width, fl);
            var k := |s| - TakenBack(s, base, prec, width, fl);
            k < |t| && t[k] != d[k]
  {
    var k := |s| - TakenBack(s, base, prec, width, fl);
    assert IsDigit(d[k]);
    if base != 16 { assert k == |d| - 1; }
  }

  /** Before it is reversed, the text starts with the digits unless the alternate form eats some.  For
      zero with an explicit precision there are no digits to be put. */
  lemma BackwardsKeepsExactly(v: Word, base: nat, negative: bool, prec: nat, width: nat, fl: Flags)
    requires 8 <= base <= 16
    ensures var t := Backwards(v, base, negative, prec, width, fl);
            |t| <= SIZE && (Start(v, base, fl) <= t <==> !Eats(v, base, negative, prec, width, fl))
  {
    hide Digits, TakenBack, Padded, Hashed, Signed;
    var d, w, fl' := Start(v, base, fl), Width(width, negative, fl), fl.(hash := fl.hash && v != 0);
    WordDigits(v, base);
    var s := Padded(d, prec, w, fl);
    PaddedKeeps(d, prec, w, fl);
    TakenBackFlags(s, base, prec, w, fl, fl');
    var h := Hashed(s, base, prec, w, fl');
    HashedFits(s, base, prec, w, fl');
    SignedKeeps(h, negative, fl);
    if v != 0 { EatsIsTakeBack(v, base, negative, prec, width, fl); }
    if Eats(v, base, negative, prec, width, fl) {
      DigitsAre(v, base);
      HashedEats(d, s, base, prec, w, fl');
    } else {
      HashedKeeps(d, s, base, prec, w, fl');
    }
  }

  lemma PaddedKeeps(d: string, prec: nat, width: nat, fl: Flags)
    requires |d| <= SIZE
    ensures d <= Padded(d, prec, width, fl) && |Padded(d, prec, width, fl)| <= SIZE
  {
  }

  lemma HashedFits(s: string, base: nat, prec: nat, width: nat, fl: Flags)
    requires |s| <= SIZE
    ensures |Hashed(s, base, prec, width, fl)| <= SIZE
  {
  }

  lemma SignedKeeps(s: string, negative: bool, fl: Flags)
    requires |s| <= SIZE
    ensures s <= Signed(s, negative, fl) && |Signed(s, negative, fl)| <= SIZE
  {
  }

  lemma TakenBackFlags(s: string, base: nat, prec: nat, width: nat, fl: Flags, fl': Flags)
    requires fl'.precision == fl.precision
    ensures TakenBack(s, base, prec, width, fl') == TakenBack(s, base, prec, width, fl)
  {
  }

  lemma ReversePrefix(d: string, t: string)
    ensures d <= t <==> |d| <= |t| && Reverse(t)[|t| - |d|..] == Reverse(d)
  {
    if |d| <= |t| && Reverse(t)[|t| - |d|..] == Reverse(d) {
      forall i | 0 <= i < |d| ensures d[i] == t[i] {
        assert Reverse(t)[|t| - |d|..][|d| - 1 - i] == Reverse(d)[|d| - 1 - i];
      }
    }
    if d <= t {
      assert forall i | 0 <= i < |d| :: Reverse(t)[|t| - |d|..][i] == Reverse(d)[i];
    }
  }

  /** For every 64-bit value, width, precision and combination of flags: the output fits the buffer,
      what follows the text of a left-justified field is spaces, and the text ends with the digits that
      were put, and so shows the value, exactly when the alternate form does not eat any. */
  lemma NtoaShowsExactly(v: Word, base: nat, negative: bool, prec: nat, width: nat, fl: Flags)
    requires 8 <= base <= 16
    ensures var out, d := Ntoa(v, base, negative, prec, width, fl), Start(v, base, fl);
            var e, n := |Backwards(v, base, negative, prec, width, fl)|, |d|;
            && e <= |out| <= SIZE && (forall i | e <= i < |out| :: out[i] == ' ')
            && ((n <= e && out[e - n..e] == Reverse(d)) <==> !Eats(v, base, negative, prec, width, fl))
            && (!Eats(v, base, negative, prec, width, fl) ==> Eval(out[e - n..e], base) == v)
  {
    hide Backwards, Digits, Eats, Eval, Start;
    var t, d := Backwards(v, base, negative, prec, width, fl), Start(v, base, fl);
    BackwardsKeepsExactly(v, base, negative, prec, width, fl);
    ReversePrefix(d, t);
    StartShows(v, base, fl);
    var out := Ntoa(v, base, negative, prec, width, fl);
    assert out[..|t|] == Reverse(t);
    if |d| <= |t| { assert out[|t| - |d|..|t|] == Reverse(t)[|t| - |d|..]; }
  }

  lemma StartShows(v: Word, base: nat, fl: Flags)
    requires 2 <= base <= 16
    ensures Eval(Reverse(Start(v, base, fl)), base) == v
  {
    if fl.precision && v == 0 {
      assert Reverse("") == "";
    } else {
      DigitsShow(v, base);
    }
  }

  /** Without any option the output is the digits alone. */
  lemma PlainIsDigits(v: Word, base: nat, fl: Flags)
    requires 8 <= base <= 16 && fl == Flags(false, false, false, false, false, fl.upper, false)
    ensures Ntoa(v, base, false, 0, 0, fl) == Reverse(Digits(v, base)) && Eval(Ntoa(v, base, false, 0, 0, fl), base) == v
  {
    DigitsShow(v, base);
  }

  /** A number whose digits fill the field exactly loses some of them, right- or left-justified. */
  lemma FullFieldLosesDigits(v: Word, base: nat, width: nat, left: bool)
    requires 8 <= base <= 16 && v != 0 && width == |Digits(v, base)|
    ensures var out := Ntoa(v, base, false, 0, width, Flags(false, left, false, false, true, false, false));
            var e := |Backwards(v, base, false, 0, width, Flags(false, left, false, false, true, false, false))|;
            e <= |out| && (width <= e ==> out[e - width..e] != Reverse(Digits(v, base)))
  {
    hide Digits, Backwards, Ntoa, Reverse;
    NtoaShowsExactly(v, base, false, 0, width, Flags(false, left, false, false, true, false, false));
  }

  function Repeat(c: char, n: int): (s: string)
    ensures |s| == if n > 0 then n else 0
    ensures forall i | 0 <= i < |s| :: s[i] == c
  {
    seq(if n > 0 then n else 0, _ => c)
  }

  lemma ReverseConcat(a: string, b: string)
    ensures Reverse(a + b) == Reverse(b) + Reverse(a)
  {
  }

  lemma ReverseShort(c: char, d: char, n: int)
    ensures Reverse([c]) == [c] && Reverse([c, d]) == [d, c] && Reverse(Repeat(c, n)) == Repeat(c, n)
  {
  }

  lemma PadToIs(s: string, n: nat, c: char)
    requires n < SIZE
    ensures PadTo(s, n, c) == s + Repeat(c, n - |s|) && PadTo(s, 0, c) == s
  {
  }

  /** The alternate form without a field: the prefix of the base, then the digits. */
  lemma AlternateForm(v: Word, base: nat, upper: bool)
    requires (base == 8 || base == 16) && v != 0
    ensures var fl := Flags(false, false, false, false, true, upper, false);
            Ntoa(v, base, false, 0, 0, fl)
            == (if base == 8 then "0" else if upper then "0X" else "0x") + Reverse(Digits(v, base))
  {
    hide Digits, Reverse, PadTo;
    WordDigits(v, base);
    var fl, d := Flags(false, false, false, false, true, upper, false), Digits(v, base);
    PadToIs(d, 0, '0');
    PadToIs(d, 0, ' ');
    assert d[..|d|] == d;
    var x := if upper then 'X' else 'x';
    assert Backwards(v, base, false, 0, 0, fl) == d + if base == 8 then ['0'] else [x, '0'];
    ReverseConcat(d, ['0']);
    ReverseConcat(d, [x, '0']);
    ReverseShort('0', '0', 0);
    ReverseShort(x, '0', 0);
  }

  function SignOf(negative: bool, fl: Flags): string {
    if negative then "-" else if fl.plus then "+" else if fl.space then " " else ""
  }

  lemma ReverseSign(negative: bool, fl: Flags)
    ensures Reverse(SignOf(negative, fl)) == SignOf(negative, fl)
  {
  }

  function Larger(a: nat, b: nat): nat { if a < b then b else a }

  /** The columns that are left for digits and padding. */
  function Columns(width: nat, negative: bool, fl: Flags): nat {
    if !fl.left && fl.zeroPad && width > 0 && SignOf(negative, fl) != "" then width - 1 else width
  }

  /** Digits behind their padding, of which a left-justified field has none. */
  function Body(d: string, prec: nat, w: nat, fl: Flags): (r: string)
    ensures |r| == if fl.left then |d| else Larger(|d|, Larger(prec, w))
  {
    if fl.left then d
    else
      var zeros := Repeat('0', Larger(prec, if fl.zeroPad then w else 0) - |d|);
      Repeat(' ', w - |zeros + d|) + (zeros + d)
  }

  function InWidth(t: string, width: nat, fl: Flags): string { if fl.left then t + Repeat(' ', width - |t|) else t }

  /** Digits in their field.  Left-justified, the precision adds no zeros; otherwise the sign goes in
      front of the padding, and takes a column of a width that is filled with zeros, but of no other. */
  function Laid(d: string, negative: bool, prec: nat, width: nat, fl: Flags): string {
    InWidth(SignOf(negative, fl) + Body(d, prec, Columns(width, negative, fl), fl), width, fl)
  }

  /** The whole text of every number that is not in alternate form. */
  lemma NtoaLays(v: Word, base: nat, negative: bool, prec: nat, width: nat, fl: Flags)
    requires 8 <= base <= 16 && prec < SIZE && width < SIZE && (fl.hash ==> v == 0)
    ensures var d := if fl.precision && v == 0 then "" else Reverse(Digits(v, base));
            Ntoa(v, base, negative, prec, width, fl) == Laid(d, negative, prec, width, fl)
  {
    hide Digits, Reverse, PadTo, Repeat, Padded, SignOf, Columns, Backwards, Start, Body, Width;
    var s, w, sign := Start(v, base, fl), Width(width, negative, fl), SignOf(negative, fl);
    StartShort(v, base, fl);
    StartReversed(v, base, fl);
    ColumnsIs(width, negative, fl);
    BackwardsIs(v, base, negative, prec, width, fl);
    ReverseConcat(Padded(s, prec, w, fl), sign);
    ReverseSign(negative, fl);
    PaddedReversed(s, prec, w, fl);
    if fl.left { PadToIs(sign + Body(Reverse(s), prec, w, fl), width, ' '); }
  }

  lemma ColumnsIs(width: nat, negative: bool, fl: Flags)
    ensures Columns(width, negative, fl) == Width(width, negative, fl) <= width
  {
  }

  lemma StartReversed(v: Word, base: nat, fl: Flags)
    requires 8 <= base <= 16
    ensures Reverse(Start(v, base, fl)) == if fl.precision && v == 0 then "" else Reverse(Digits(v, base))
  {
  }

  lemma StartShort(v: Word, base: nat, fl: Flags)
    requires 8 <= base <= 16
    ensures |Start(v, base, fl)| <= 22
  {
    WordDigits(v, base);
  }

  lemma BackwardsIs(v: Word, base: nat, negative: bool, prec: nat, width: nat, fl: Flags)
    requires 8 <= base <= 16 && prec < SIZE && width < SIZE && (fl.hash ==> v == 0)
    ensures Backwards(v, base, negative, prec, width, fl)
            == Padded(Start(v, base, fl), prec, Width(width, negative, fl), fl) + SignOf(negative, fl)
  {
    hide Digits, Padded, Signed, SignOf, Start;
    var s, w := Start(v, base, fl), Width(width, negative, fl);
    StartShort(v, base, fl);
    PaddedIs(s, prec, w, fl);
    SignedIs(Padded(s, prec, w, fl), negative, fl);
  }

  lemma PaddedIs(s: string, prec: nat, w: nat, fl: Flags)
    requires |s| <= 22 && prec < SIZE && w < SIZE
    ensures var zeros := Repeat('0', Larger(prec, if fl.zeroPad then w else 0) - |s|);
            Padded(s, prec, w, fl) == if fl.left then s else s + zeros + Repeat(' ', w - |s + zeros|)
    ensures |Padded(s, prec, w, fl)| < SIZE
  {
    hide PadTo, Repeat;
    var z := if fl.zeroPad then w else 0;
    PadToIs(s, prec, '0');
    PadToIs(s + Repeat('0', prec - |s|), z, '0');
    RepeatTwice('0', |s|, prec, z);
    assert s + Repeat('0', prec - |s|) + Repeat('0', z - |s + Repeat('0', prec - |s|)|) == s + Repeat('0', Larger(prec, z) - |s|);
    PadToIs(s + Repeat('0', Larger(prec, z) - |s|), w, ' ');
  }

  lemma RepeatTwice(c: char, n: nat, a: nat, b: nat)
    ensures Repeat(c, a - n) + Repeat(c, b - (n + |Repeat(c, a - n)|)) == Repeat(c, Larger(a, b) - n)
  {
  }

  lemma SignedIs(s: string, negative: bool, fl: Flags)
    requires |s| < SIZE
    ensures Signed(s, negative, fl) == s + SignOf(negative, fl)
  {
  }

  lemma PaddedReversed(d: string, prec: nat, w: nat, fl: Flags)
    requires |d| <= 22 && prec < SIZE && w < SIZE
    ensures Reverse(Padded(d, prec, w, fl)) == Body(Reverse(d), prec, w, fl)
  {
    hide Reverse, Repeat, Padded;
    var z := Larger(prec, if fl.zeroPad then w else 0) - |d|;
    var zeros := Repeat('0', z);
    var spaces := Repeat(' ', w - |d + zeros|);
    PaddedIs(d, prec, w, fl);
    ReverseConcat(d + zeros, spaces);
    ReverseConcat(d, zeros);
    ReverseShort('0', '0', z);
    ReverseShort(' ', ' ', w - |d + zeros|);
  }

  /** How many columns of the text the prefix of the alternate form takes: none where a precision is
      given or the digits stick out of the field, or, left-justified, do not fill it exactly; otherwise
      two for base 16, if there are two, and one for base 8. */
  function Overwritten(n: nat, base: nat, prec: nat, w: nat, fl: Flags): nat {
    var field := Larger(prec, w);
    if fl.precision || (if fl.left then prec != n && w != n else field < n) then 0
    else if base == 16 && (n > 1 || (!fl.left && field > 1)) then 2 else 1
  }

  function PrefixOf(base: nat, upper: bool): string { if base != 16 then "0" else if upper then "0X" else "0x" }

  /** Digits in alternate form in their field.  The prefix goes between the sign and the padding. */
  function LaidAlternate(d: string, base: nat, negative: bool, prec: nat, width: nat, fl: Flags): string
    requires d != ""
  {
    var w := Columns(width, negative, fl);
    var rest := Body(d, prec, w, fl)[Overwritten(|d|, base, prec, w, fl)..];
    InWidth(SignOf(negative, fl) + PrefixOf(base, fl.upper) + rest, width, fl)
  }

  /** The whole text of every number in alternate form, as long as no field reaches the end of the
      scratch buffer. */
  lemma NtoaLaysAlternate(v: Word, base: nat, negative: bool, prec: nat, width: nat, fl: Flags)
    requires 8 <= base <= 16 && prec < SIZE - 2 && width < SIZE - 2 && fl.hash && v != 0
    ensures Ntoa(v, base, negative, prec, width, fl)
            == LaidAlternate(Reverse(Digits(v, base)), base, negative, prec, width, fl)
  {
    hide Digits, Reverse, PadTo, Repeat, Padded, SignOf, Overwritten, Columns, PrefixOf, Backwards, Body, Width;
    var d, w := Digits(v, base), Width(width, negative, fl);
    WordDigits(v, base);
    ColumnsIs(width, negative, fl);
    var s, k := Padded(d, prec, w, fl), Overwritten(|d|, base, prec, w, fl);
    PaddedFew(d, prec, w, fl);
    AlternateBackwards(v, base, negative, prec, width, fl);
    AlternateReversed(s, k, base, negative, fl);
    PaddedReversed(d, prec, w, fl);
    PrefixIsShort(base, fl.upper);
    SignIsShort(negative, fl);
    if fl.left { PadToIs(SignOf(negative, fl) + PrefixOf(base, fl.upper) + Body(Reverse(d), prec, w, fl)[k..], width, ' '); }
  }

  lemma AlternateBackwards(v: Word, base: nat, negative: bool, prec: nat, width: nat, fl: Flags)
    requires 8 <= base <= 16 && prec < SIZE - 2 && width < SIZE - 2 && fl.hash && v != 0
    ensures var d, w := Digits(v, base), Width(width, negative, fl);
            var s, k := Padded(d, prec, w, fl), Overwritten(|d|, base, prec, w, fl);
            && k <= |s|
            && Backwards(v, base, negative, prec, width, fl)
               == s[..|s| - k] + Reverse(PrefixOf(base, fl.upper)) + SignOf(negative, fl)
  {
    hide Digits, Reverse, Padded, Hashed, Signed, SignOf, Overwritten, Width, PrefixOf, TakenBack;
    var d, w := Digits(v, base), Width(width, negative, fl);
    WordDigits(v, base);
    ColumnsIs(width, negative, fl);
    var s, k := Padded(d, prec, w, fl), Overwritten(|d|, base, prec, w, fl);
    PaddedFew(d, prec, w, fl);
    HashedIs(d, base, prec, w, fl);
    PrefixIsShort(base, fl.upper);
    SignedIs(s[..|s| - k] + Reverse(PrefixOf(base, fl.upper)), negative, fl);
  }

  lemma PaddedFew(d: string, prec: nat, w: nat, fl: Flags)
    requires 0 < |d| <= 22 && prec < SIZE - 2 && w < SIZE - 2
    ensures |Padded(d, prec, w, fl)| == (if fl.left then |d| else Larger(|d|, Larger(prec, w))) < SIZE - 2
    ensures forall base :: Overwritten(|d|, base, prec, w, fl) <= |Padded(d, prec, w, fl)|
  {
    PaddedIs(d, prec, w, fl);
  }

  lemma HashedIs(d: string, base: nat, prec: nat, w: nat, fl: Flags)
    requires 0 < |d| <= 22 && prec < SIZE - 2 && w < SIZE - 2 && fl.hash
    ensures var s, k := Padded(d, prec, w, fl), Overwritten(|d|, base, prec, w, fl);
            && TakenBack(s, base, prec, w, fl) == k <= |s|
            && Hashed(s, base, prec, w, fl) == s[..|s| - k] + Reverse(PrefixOf(base, fl.upper))
  {
    hide Padded, PadTo, Repeat;
    PaddedFew(d, prec, w, fl);
    PrefixReversed(base, fl.upper);
  }

  lemma PrefixReversed(base: nat, upper: bool)
    ensures Reverse(PrefixOf(base, upper)) == if base != 16 then "0" else if upper then "X0" else "x0"
  {
  }

  lemma PrefixIsShort(base: nat, upper: bool)
    ensures |PrefixOf(base, upper)| <= 2
  {
  }

  lemma SignIsShort(negative: bool, fl: Flags)
    ensures |SignOf(negative, fl)| <= 1
  {
  }

  lemma ReverseTwice(s: string)
    ensures Reverse(Reverse(s)) == s
  {
  }

  lemma ReverseDrop(s: string, k: nat)
    requires k <= |s|
    ensures Reverse(s[..|s| - k]) == Reverse(s)[k..]
  {
  }

  lemma AlternateReversed(s: string, k: nat, base: nat, negative: bool, fl: Flags)
    requires k <= |s|
    ensures Reverse(s[..|s| - k] + Reverse(PrefixOf(base, fl.upper)) + SignOf(negative, fl))
            == SignOf(negative, fl) + PrefixOf(base, fl.upper) + Reverse(s)[k..]
  {
    hide Reverse, SignOf, PrefixOf;
    var sign, prefix := SignOf(negative, fl), PrefixOf(base, fl.upper);
    ReverseConcat(s[..|s| - k] + Reverse(prefix), sign);
    ReverseConcat(s[..|s| - k], Reverse(prefix));
    ReverseTwice(prefix);
    ReverseSign(negative, fl);
    ReverseDrop(s, k);
    assert sign + (prefix + Reverse(s)[k..]) == sign + prefix + Reverse(s)[k..];
  }

  /** A number in a space-padded field: the sign goes in front of the padding, and sticks out of the
      field when the digits do not. */
  lemma SpacedField(v: Word, base: nat, negative: bool, width: nat)
    requires 8 <= base <= 16 && width < SIZE
    ensures var fl, d := Flags(false, false, false, false, false, false, false), Reverse(Digits(v, base));
            Ntoa(v, base, negative, 0, width, fl) == (if negative then "-" else "") + (Repeat(' ', width - |d|) + d)
  {
    hide Ntoa, Digits, Reverse, Repeat;
    var fl, d := Flags(false, false, false, false, false, false, false), Reverse(Digits(v, base));
    NtoaLays(v, base, negative, 0, width, fl);
    assert Repeat('0', 0 - |d|) + d == d;
  }

  /** Zero with an explicit precision: as many zeros as the precision says, except that a left-justified
      field gets none at all. */
  lemma ZeroWithPrecision(base: nat, negative: bool, prec: nat, width: nat, fl: Flags)
    requires 8 <= base <= 16 && fl.precision && !fl.zeroPad && prec < SIZE && width < SIZE
    ensures Ntoa(0, base, negative, prec, width, fl)
            == if fl.left then SignOf(negative, fl) + Repeat(' ', width - |SignOf(negative, fl)|)
               else SignOf(negative, fl) + (Repeat(' ', width - prec) + Repeat('0', prec))
  {
    hide Ntoa, Digits, Repeat, SignOf;
    NtoaLays(0, base, negative, prec, width, fl);
    assert Repeat('0', prec) + "" == Repeat('0', prec);
  }

  // ---------- negative numbers ----------

  /** The signed conversion passes the two's complement, so that what follows the minus sign is the
      magnitude only for the smallest number. */
  lemma SignedShowsMagnitudeExactly(v: int)
    requires -(WORDS / 2) <= v < WORDS / 2
    ensures Eval(Reverse(Digits(Wrap(v), 10)), 10) == (if v < 0 then -v else v) <==> v >= 0 || v == -(WORDS / 2)
  {
    hide Eval, Digits, Reverse;
    DigitsShow(Wrap(v), 10);
    assert Wrap(v) == if v >= 0 then v else v + WORDS;
  }
}
