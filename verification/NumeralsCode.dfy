/** `_ntoa` and `_strrev` on the 256-byte scratch buffer, and `atoi`. */
module NumeralsCode {
  import opened PageTables
  import opened Numerals

  /** `_strrev` */
  method StrRev(buf: array<char>, len: nat)
    requires len <= buf.Length
    modifies buf
    ensures buf[..len] == Reverse(old(buf[..len]))
  {
    ghost var s := buf[..len];
    for i := 0 to len / 2
      invariant forall k | 0 <= k < i :: buf[k] == s[len - 1 - k] && buf[len - 1 - k] == s[k]
      invariant forall k | i <= k < len - i :: buf[k] == s[k]
    {
      var swap := buf[i];
      buf[i] := buf[len - i - 1];
      buf[len - i - 1] := swap;
    }
    forall k | 0 <= k < len ensures buf[k] == s[len - 1 - k] {
      assert k >= len - len / 2 ==> buf[len - 1 - (len - 1 - k)] == s[len - 1 - k];
    }
    assert buf[..len] == Reverse(s);
  }

  /** A padding loop. */
  method Fill(buf: array<char>, len: nat, n: nat, c: char) returns (len': nat)
    requires len <= buf.Length == SIZE
    modifies buf
    ensures len <= len' <= SIZE && buf[..len'] == PadTo(old(buf[..len]), n, c)
  {
    len' := len;
    while len' < n && len' < SIZE
      invariant len <= len' <= SIZE && (len' > len ==> len' <= n) && buf[..len] == old(buf[..len])
      invariant forall k | len <= k < len' :: buf[k] == c
      decreases SIZE - len'
    {
      buf[len'] := c;
      len' := len' + 1;
    }
    assert buf[..len'] == buf[..len] + buf[len..len'];
  }

  method Append(buf: array<char>, len: nat, c: char) returns (len': nat)
    requires len <= buf.Length == SIZE
    modifies buf
    ensures len' <= SIZE && buf[..len'] == Push(old(buf[..len]), c)
  {
    len' := len;
    if len < SIZE {
      buf[len] := c;
      len' := len + 1;
      assert buf[..len'] == buf[..len] + [c];
    }
  }

  /** The digit loop. */
  method PutDigits(v: Word, base: nat, buf: array<char>) returns (len: nat)
    requires 8 <= base <= 16 && buf.Length == SIZE
    modifies buf
    ensures len <= SIZE && buf[..len] == Digits(v, base)
  {
    hide Digits, DigitChar;
    WordDigits(v, base);
    len := 0;
    var value: nat := v;
    while true
      invariant len < SIZE && Digits(v, base) == buf[..len] + Digits(value, base)
      decreases value, 1
    {
      ghost var q, r := DigitsStep(value, base);
      buf[len] := DigitChar(value % base);
      len := len + 1;
      ghost var was := value;
      value := value / base;
      DigitPut(buf[..len - 1], was, q, r, base);
      assert buf[..len] == buf[..len - 1] + [DigitChar(r)];
      if value == 0 || len >= SIZE {
        break;
      }
    }
  }

  lemma DigitPut(s: string, v: nat, q: nat, r: nat, base: nat)
    requires 2 <= base <= 16 && r == v % base && r < 16
    requires Digits(v, base) == [DigitChar(r)] + if q == 0 then "" else Digits(q, base)
    ensures s + Digits(v, base) == s + [DigitChar(r)] + if q == 0 then "" else Digits(q, base)
  {
  }

  /** The padding of a field that is not left-justified. */
  method Pad(buf: array<char>, start: nat, prec: nat, width: nat, fl: Flags) returns (len: nat)
    requires start <= buf.Length == SIZE
    modifies buf
    ensures len <= SIZE && buf[..len] == Padded(old(buf[..start]), prec, width, fl)
  {
    hide PadTo;
    len := start;
    if !fl.left {
      len := Fill(buf, len, prec, '0');
      PadToNothing(buf[..len]);
      if fl.zeroPad { len := Fill(buf, len, width, '0'); }
      len := Fill(buf, len, width, ' ');
    }
  }

  lemma PadToNothing(s: string)
    ensures PadTo(s, 0, '0') == s
  {
  }

  /** The alternate form. */
  method Hash(buf: array<char>, start: nat, base: nat, prec: nat, width: nat, fl: Flags) returns (len: nat)
    requires start <= buf.Length == SIZE && fl.hash
    modifies buf
    ensures len <= SIZE && buf[..len] == Hashed(old(buf[..start]), base, prec, width, fl)
  {
    hide Push;
    len := start;
    ghost var s := buf[..start];
    if !fl.precision && len != 0 && (len == prec || len == width) {
      len := len - 1;
      if len != 0 && base == 16 {
        len := len - 1;
      }
    }
    assert buf[..len] == s[..len] && len == |s| - TakenBack(s, base, prec, width, fl);
    if base == 16 && !fl.upper {
      len := Append(buf, len, 'x');
    } else if base == 16 && fl.upper {
      len := Append(buf, len, 'X');
    }
    len := Append(buf, len, '0');
  }

  method Sign(buf: array<char>, start: nat, negative: bool, fl: Flags) returns (len: nat)
    requires start <= buf.Length == SIZE
    modifies buf
    ensures len <= SIZE && buf[..len] == Signed(old(buf[..start]), negative, fl)
  {
    hide Push;
    len := start;
    if negative {
      len := Append(buf, len, '-');
    } else if fl.plus {
      len := Append(buf, len, '+');
    } else if fl.space {
      len := Append(buf, len, ' ');
    }
  }

  /** `_ntoa`: writes stay inside the scratch buffer, whatever the arguments. */
  method Convert(value: Word, buf: array<char>, base: nat, negative: bool, prec: nat, width: nat, flags: Flags)
    returns (len: nat)
    requires 8 <= base <= 16 && buf.Length == SIZE
    modifies buf
    ensures len <= SIZE && buf[..len] == Ntoa(value, base, negative, prec, width, flags)
  {
    hide Digits, PadTo, Push, Padded, Hashed, Signed;
    var fl := if value == 0 then flags.(hash := false) else flags;
    len := 0;
    assert buf[..0] == "";
    if !flags.precision || value != 0 {
      len := PutDigits(value, base, buf);
    }
    var w := width;
    if width > 0 && !flags.left && flags.zeroPad && (negative || flags.plus || flags.space) {
      w := w - 1;
    }
    len := Pad(buf, len, prec, w, flags);
    if fl.hash {
      len := Hash(buf, len, base, prec, w, fl);
    } else {
      NoHash(buf[..len], base, prec, w, fl);
    }
    len := Sign(buf, len, negative, flags);
    StrRev(buf, len);
    if flags.left {
      len := Fill(buf, len, width, ' ');
    }
  }

  lemma NoHash(s: string, base: nat, prec: nat, width: nat, fl: Flags)
    requires !fl.hash
    ensures Hashed(s, base, prec, width, fl) == s
  {
  }

  // ---------- atoi ----------

  const INT_MAX: int := 0x7fff_ffff

  datatype Parsed = Number(value: int) | Overflow

  /** The source's `isspace`, which has letters where the escapes were meant. */
  predicate IsSpace(c: char) { c == ' ' || c == 't' || c == 'n' || c == 'v' || c == 'f' || c == 'r' }

  predicate IsDecimal(c: char) { '0' <= c <= '9' }

  /** The digit loop of `atoi`.  The character is added before '0' is subtracted, and the sum may
      leave the range of an int. */
  function AtoiFrom(acc: int, s: string): Parsed
    decreases |s|
  {
    if s == "" || !IsDecimal(s[0]) then Number(acc)
    else if acc * 10 + s[0] as int > INT_MAX then Overflow
    else AtoiFrom(acc * 10 + s[0] as int - '0' as int, s[1..])
  }

  function SkipSpaces(s: string): string { if s != "" && IsSpace(s[0]) then SkipSpaces(s[1..]) else s }

  function Atoi(s: string): Parsed {
    var t := SkipSpaces(s);
    if t != "" && (t[0] == '-' || t[0] == '+') then
      match AtoiFrom(0, t[1..])
      case Overflow => Overflow
      case Number(v) => Number(if t[0] == '-' then -v else v)
    else AtoiFrom(0, t)
  }

  /** The first loop of `atoi`. */
  method PassSpaces(str: string) returns (index: nat)
    ensures index <= |str| && SkipSpaces(str) == str[index..]
  {
    index := 0;
    while index < |str| && IsSpace(str[index])
      invariant index <= |str| && SkipSpaces(str) == SkipSpaces(str[index..])
    {
      assert str[index..][1..] == str[index + 1..];
      index := index + 1;
    }
  }

  method ReadNumber(str: string) returns (r: Parsed)
    ensures r == Atoi(str)
  {
    hide SkipSpaces;
    var i, mult := 0, 1;
    var index: nat := PassSpaces(str);
    ghost var t := str[index..];
    if index < |str| && str[index] == '-' {
      mult := -1;
      index := index + 1;
    } else if index < |str| && str[index] == '+' {
      index := index + 1;
    }
    ghost var digits := str[index..];
    assert digits == if t != "" && (t[0] == '-' || t[0] == '+') then t[1..] else t;
    while index < |str| && IsDecimal(str[index])
      invariant index <= |str| && AtoiFrom(0, digits) == AtoiFrom(i, str[index..])
    {
      assert str[index..][0] == str[index] && str[index..][1..] == str[index + 1..];
      if i * 10 + str[index] as int > INT_MAX {
        return Overflow;
      }
      i := i * 10 + str[index] as int - '0' as int;
      index := index + 1;
    }
    r := Number(i * mult);
  }

  predicate AllDecimal(s: string) { forall i | 0 <= i < |s| :: IsDecimal(s[i]) }

  /** Reading a digit string evaluates it, unless its value and 48 together leave the range. */
  lemma {:induction false} AtoiEvaluates(s: string, tail: string)
    requires AllDecimal(s)
    ensures 0 <= Eval(s, 10)
    ensures AtoiFrom(0, s + tail) == if s != "" && Eval(s, 10) + 48 > INT_MAX then Overflow else AtoiFrom(Eval(s, 10), tail)
  {
    if s == "" {
      assert s + tail == tail;
    } else {
      var front, c := s[..|s| - 1], s[|s| - 1];
      AtoiEvaluates(front, [c] + tail);
      assert s + tail == front + ([c] + tail);
      assert ([c] + tail)[1..] == tail;
    }
  }

  lemma {:induction false} DecimalDigits(v: nat)
    ensures AllDecimal(Digits(v, 10))
  {
    hide Digits;
    var q, r := DigitsStep(v, 10);
    if q > 0 { DecimalDigits(q); }
  }

  /** `atoi` reads back what the plain decimal conversion wrote exactly for the numbers up to
      2147483599; from there on its sum overflows. */
  lemma AtoiInvertsExactly(v: Word, rest: string)
    requires rest == "" || !IsDecimal(rest[0])
    ensures var s := Ntoa(v, 10, false, 0, 0, Flags(false, false, false, false, false, false, false));
            Atoi(s + rest) == if v <= 2147483599 then Number(v) else Overflow
  {
    hide Digits, Eval;
    var fl := Flags(false, false, false, false, false, false, false);
    PlainIsDigits(v, 10, fl);
    DecimalDigits(v);
    var s := Reverse(Digits(v, 10));
    AtoiEvaluates(s, rest);
    assert IsDecimal(s[0]) && (s + rest)[0] == s[0];
    assert SkipSpaces(s + rest) == s + rest;
  }
}
