/** `snprintf`: the bounded sink `_out_s` and the format loop, against what the format prints. */
module FormatCode {
  import opened Basics
  import opened PageTables
  import opened Numerals
  import NumeralsCode
  import opened Format

  /** `_out_s`: writes only below `maxLen`, and succeeds exactly when everything fits. */
  method OutS(text: string, buffer: array<char>, idx: nat, maxLen: nat) returns (ok: bool)
    requires maxLen <= buffer.Length
    modifies buffer
    ensures ok <==> text == "" || idx + |text| <= maxLen
    ensures ok ==> text == "" || buffer[idx..idx + |text|] == text
    ensures forall k | 0 <= k < buffer.Length && (k < idx || k >= idx + |text| || k >= maxLen) :: buffer[k] == old(buffer[k])
  {
    for i := 0 to |text|
      invariant i > 0 ==> idx + i <= maxLen
      invariant forall k | 0 <= k < i :: buffer[idx + k] == text[k]
      invariant forall k | 0 <= k < buffer.Length && (k < idx || k >= idx + i) :: buffer[k] == old(buffer[k])
    {
      if i + idx >= maxLen {
        return false;
      }
      buffer[i + idx] := text[i];
    }
    assert text != "" ==> buffer[idx..idx + |text|] == text;
    ok := true;
  }

  // ---------- the fields of a directive, with the loops of the source ----------

  method ReadFlags(f: string) returns (fl: Flags, rest: string)
    ensures (fl, rest) == TakeFlags(f, NO_FLAGS)
  {
    fl, rest := NO_FLAGS, f;
    while IsFlag(First(rest))
      invariant TakeFlags(f, NO_FLAGS) == TakeFlags(rest, fl)
      decreases |rest|
    {
      fl, rest := FlagOf(fl, rest[0]), rest[1..];
    }
  }

  method ReadField(f: string, args: seq<Arg>) returns (r: Field)
    ensures r == TakeField(f, args)
  {
    if IsDecimal(First(f)) {
      var n := NumeralsCode.ReadNumber(f);
      if n.Overflow? {
        return NoField;
      }
      var rest := f;
      while IsDecimal(First(rest))
        invariant SkipDigits(f) == SkipDigits(rest)
        decreases |rest|
      {
        rest := rest[1..];
      }
      return Value(n.value, rest, args, false);
    }
    if First(f) == '*' {
      if args != [] && args[0].Int? {
        return Value(args[0].value, f[1..], args[1..], true);
      }
      return NoField;
    }
    r := Value(0, f, args, false);
  }

  predicate IsDecimal(c: char) { NumeralsCode.IsDecimal(c) }

  method ReadSpec(f: string, args: seq<Arg>) returns (s: Spec)
    ensures s == TakeSpec(f, args)
  {
    hide TakeFlags, TakeField, TakeLength;
    var fl, f1 := ReadFlags(f);
    var w := ReadField(f1, args);
    if w.NoField? {
      return BadSpec;
    }
    if w.value < 0 {
      fl := fl.(left := true);
    }
    var rest, args', precision, starred := w.rest, w.args, 0, false;
    if First(rest) == '.' {
      fl := fl.(precision := true);
      var p := ReadField(rest[1..], args');
      if p.NoField? {
        return BadSpec;
      }
      rest, args', precision, starred := p.rest, p.args, if p.value > 0 then p.value else 0, p.starred;
    }
    var (length, conv) := TakeLength(rest);
    s := Spec(fl, Format.Absolute(w.value), precision, length, conv, starred, args');
  }

  // ---------- conversions into the scratch buffer ----------

  /** The copy and the padding loops of "%c" and "%s". */
  method PutJustified(t: string, width: nat, left: bool, scratch: array<char>) returns (len: nat)
    requires scratch.Length == SIZE && |t| <= SIZE && width <= SIZE
    modifies scratch
    ensures len <= SIZE && scratch[..len] == Justified(t, width, left)
  {
    len := 0;
    if !left {
      while len + |t| < width
        invariant 0 <= len && (len == 0 || len + |t| <= width)
        invariant forall k | 0 <= k < len :: scratch[k] == ' '
        decreases width - len
      {
        scratch[len] := ' ';
        len := len + 1;
      }
    }
    ghost var pad := len;
    forall i | 0 <= i < |t| { scratch[len + i] := t[i]; }
    len := len + |t|;
    if left {
      while len < width
        invariant |t| <= len && (len == |t| || len <= width) && len <= SIZE
        invariant forall k | 0 <= k < |t| :: scratch[k] == t[k]
        invariant forall k | |t| <= k < len :: scratch[k] == ' '
        decreases width - len
      {
        scratch[len] := ' ';
        len := len + 1;
      }
    }
    assert scratch[..len] == Justified(t, width, left);
  }

  /** One directive, which must be one that fits. */
  method RunDirective(f: string, s: Spec, scratch: array<char>) returns (text: string, rest: string, args: seq<Arg>)
    requires f != "" && s.Spec? && |s.rest| < |f| && (s.starred ==> |f| > 2) && Format.Convert(f, s).Piece?
    requires scratch.Length == SIZE
    modifies scratch
    ensures Format.Convert(f, s) == Piece(text, rest, args)
  {
    hide Ntoa, Justified, NumberOf, NumberFlags;
    var c := First(s.rest);
    if IsNumber(c) {
      var (v, negative) := NumberOf(c, s.length, s.args[0].value);
      var len := NumeralsCode.Convert(v, scratch, BaseOf(c), negative, s.precision, s.width, NumberFlags(s.flags, c));
      return scratch[..len], s.rest[1..], s.args[1..];
    }
    if c == 'c' {
      var len := PutJustified([CharOf(s.args[0].value)], s.width, s.flags.left, scratch);
      return scratch[..len], s.rest[1..], s.args[1..];
    }
    if c == 's' {
      var len := PutJustified(CutTo(s.args[0].text, s), s.width, s.flags.left, scratch);
      return scratch[..len], s.rest[1..], s.args[1..];
    }
    var g := if s.starred then f[1..] else f;
    text, rest, args := g[..1], g[1..], s.args;
  }

  /** The next literal run or directive. */
  method TakePiece(f: string, args: seq<Arg>, scratch: array<char>) returns (text: string, rest: string, args': seq<Arg>)
    requires f != "" && Next(f, args).Piece? && scratch.Length == SIZE
    modifies scratch
    ensures Next(f, args) == Piece(text, rest, args')
  {
    hide TakeSpec, Format.Convert;
    if f[0] != '%' || First(f[1..]) == '%' {
      var g := if f[0] == '%' then f[1..] else f;
      var amount := 1;
      while amount < |g| && g[amount] != '%'
        invariant 1 <= amount <= |g| && 1 + PlainLength(g[1..]) == amount + PlainLength(g[amount..])
      {
        assert g[amount..][1..] == g[amount + 1..];
        amount := amount + 1;
      }
      return g[..amount], g[amount..], args;
    }
    var s := ReadSpec(f[1..], args);
    text, rest, args' := RunDirective(f, s, scratch);
  }

  // ---------- the whole call ----------

  /** `_vsnprintf` into a buffer, as `snprintf` calls it, for operands that are there and fit the
      scratch buffer: it writes only below `maxLen`, fails exactly when the output is longer than
      that, and otherwise leaves the output, terminated within the bound. */
  method Vsnprintf(buffer: array<char>, maxLen: nat, format: string, args: seq<Arg>) returns (written: int)
    requires maxLen <= buffer.Length && Render(format, args).Printed?
    modifies buffer
    ensures forall k | maxLen <= k < buffer.Length :: buffer[k] == old(buffer[k])
    ensures var t := Render(format, args).text;
            if |t| > maxLen then written == -1
            else written == |t| && (maxLen > 0 ==> Terminated(buffer[..], t, Min(|t|, maxLen - 1)))
  {
    hide Next, Render, Terminated;
    var scratch := new char[SIZE](_ => NUL);
    ghost var all := Render(format, args).text;
    var f, rest := format, args;
    var at: nat := 0;
    assert "" + all == all && buffer[..0] == "";
    while f != ""
      invariant at <= |all| && at <= maxLen && fresh(scratch)
      invariant Render(f, rest).Printed? && all == buffer[..at] + Render(f, rest).text
      invariant forall k | maxLen <= k < buffer.Length :: buffer[k] == old(buffer[k])
      decreases |f|
    {
      ghost var sofar := buffer[..at];
      RenderNext(f, rest, sofar, all);
      var text, f', rest' := TakePiece(f, rest, scratch);
      assert buffer[..at] == sofar;
      assert all == sofar + text + Render(f', rest').text;
      var ok := OutS(text, buffer, at, maxLen);
      if !ok {
        assert |all| > maxLen;
        return -1;
      }
      assert buffer[..at] == sofar;
      JoinSlices(buffer[..], at, sofar, text);
      assert buffer[..at + |text|] == sofar + text;
      at := at + |text|;
      f, rest := f', rest';
    }
    RenderNothing(rest, buffer[..at]);
    PutEnd(buffer, at, maxLen, all);
    written := at;
  }

  /** The terminator, at the end of the output or in the last place of the buffer. */
  method PutEnd(buffer: array<char>, written: nat, maxLen: nat, ghost t: string)
    requires |t| == written <= maxLen <= buffer.Length && buffer[..written] == t
    modifies buffer
    ensures maxLen > 0 ==> Terminated(buffer[..], t, Min(written, maxLen - 1))
    ensures forall k | maxLen <= k < buffer.Length :: buffer[k] == old(buffer[k])
  {
    if maxLen > 0 {
      var at := if written < maxLen then written else maxLen - 1;
      ghost var before := buffer[..];
      assert before[..at] == t[..at];
      var _ := OutS([NUL], buffer, at, maxLen);
      assert buffer[at] == buffer[at..at + 1][0] == NUL;
      assert buffer[..at] == before[..at];
    }
  }

  lemma JoinSlices(buf: seq<char>, at: nat, a: string, b: string)
    requires at + |b| <= |buf| && buf[..at] == a && (b == "" || buf[at..at + |b|] == b)
    ensures buf[..at + |b|] == a + b
  {
    assert buf[..at + |b|] == buf[..at] + buf[at..at + |b|];
  }

  lemma RenderNothing(args: seq<Arg>, t: string)
    ensures Render("", args) == Printed("") && t + "" == t
  {
  }

  /** The buffer begins with the first `n` characters of `t`, and a terminator. */
  predicate Terminated(buf: seq<char>, t: string, n: nat) {
    n <= |t| && n < |buf| && buf[..n] == t[..n] && buf[n] == NUL
  }

  lemma RenderNext(f: string, args: seq<Arg>, done: string, all: string)
    requires f != "" && Render(f, args).Printed? && all == done + Render(f, args).text
    ensures Next(f, args).Piece?
    ensures var p := Next(f, args);
            Render(p.rest, p.args).Printed? && all == (done + p.text) + Render(p.rest, p.args).text
  {
    hide Next;
    var p := Next(f, args);
    assert done + (p.text + Render(p.rest, p.args).text) == (done + p.text) + Render(p.rest, p.args).text;
  }
}
