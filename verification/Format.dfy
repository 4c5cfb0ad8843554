/** Format strings (`_vsnprintf`): how one is split into literal runs and directives, and what each
    of them prints. */
module Format {
  import opened Basics
  import opened PageTables
  import opened Numerals
  import opened NumeralsCode

  /** The arguments behind the format. */
  datatype Arg = Int(value: int) | Text(text: string)

  // ---------- the fields of a directive ----------

  datatype Length = Plain | Long | LongLong | Short | Char

  /** What stands between '%' and the conversion character, the format from that character on, and
      whether a '*' gave the precision. */
  datatype Spec = Spec(flags: Flags, width: nat, precision: nat, length: Length, rest: string, starred: bool, args: seq<Arg>)
                | BadSpec

  /** One piece of output, and what remains. */
  datatype Step = Piece(text: string, rest: string, args: seq<Arg>) | Unfit

  function First(f: string): char { if f == "" then NUL else f[0] }

  const NO_FLAGS: Flags := Flags(false, false, false, false, false, false, false)

  function FlagOf(fl: Flags, c: char): Flags {
    if c == '0' then fl.(zeroPad := true)
    else if c == '-' then fl.(left := true)
    else if c == '+' then fl.(plus := true)
    else if c == ' ' then fl.(space := true)
    else fl.(hash := true)
  }

  predicate IsFlag(c: char) { c == '0' || c == '-' || c == '+' || c == ' ' || c == '#' }

  function TakeFlags(f: string, fl: Flags): (r: (Flags, string))
    ensures |r.1| <= |f|
    decreases |f|
  {
    if IsFlag(First(f)) then TakeFlags(f[1..], FlagOf(fl, f[0])) else (fl, f)
  }

  function SkipDigits(f: string): (r: string)
    ensures |r| <= |f|
  {
    if IsDecimal(First(f)) then SkipDigits(f[1..]) else f
  }

  /** A number in the format, a '*' that takes an argument, or nothing. */
  datatype Field = Value(value: int, rest: string, args: seq<Arg>, starred: bool) | NoField

  function TakeField(f: string, args: seq<Arg>): (r: Field)
    ensures r.Value? ==> |r.rest| <= |f| && (r.starred ==> |r.rest| < |f|)
  {
    if IsDecimal(First(f)) then
      match Atoi(f)
      case Overflow => NoField
      case Number(n) => Value(n, SkipDigits(f), args, false)
    else if First(f) == '*' then
      if args != [] && args[0].Int? then Value(args[0].value, f[1..], args[1..], true) else NoField
    else Value(0, f, args, false)
  }

  function TakeLength(f: string): (r: (Length, string))
    ensures |r.1| <= |f|
  {
    if First(f) == 'l' then (if First(f[1..]) == 'l' then (LongLong, f[2..]) else (Long, f[1..]))
    else if First(f) == 'h' then (if First(f[1..]) == 'h' then (Char, f[2..]) else (Short, f[1..]))
    else (Plain, f)
  }

  function Absolute(n: int): nat { if n < 0 then -n else n }

  /** The fields of the directive whose text behind the '%' is `f`. */
  function TakeSpec(f: string, args: seq<Arg>): (s: Spec)
    ensures s.Spec? ==> |s.rest| <= |f| && (s.starred ==> |s.rest| + 2 <= |f|)
  {
    var (fl, f1) := TakeFlags(f, NO_FLAGS);
    match TakeField(f1, args)
    case NoField => BadSpec
    case Value(w, f2, args2, _) =>
      var fl2 := if w < 0 then fl.(left := true) else fl;
      if First(f2) != '.' then
        var (len, f3) := TakeLength(f2);
        Spec(fl2, Absolute(w), 0, len, f3, false, args2)
      else
        match TakeField(f2[1..], args2)
        case NoField => BadSpec
        case Value(p, f3, args3, starred) =>
          var (len, f4) := TakeLength(f3);
          Spec(fl2.(precision := true), Absolute(w), if p > 0 then p else 0, len, f4, starred, args3)
  }

  // ---------- the conversions ----------

  /** The value of a number argument as the conversion passes it on, 64 bits wide. */
  function Bits(n: nat): nat { if n == 8 then 0x100 else if n == 16 then 0x1_0000 else if n == 32 then 0x1_0000_0000 else WORDS }

  function SizeOf(length: Length): nat {
    match length
    case Plain => 32
    case Char => 8
    case Short => 16
    case _ => 64
  }

  function AsSigned(v: int, bits: nat): int {
    var m := Bits(bits);
    if v % m < m / 2 then v % m else v % m - m
  }

  function AsUnsigned(v: int, bits: nat): Word {
    v % Bits(bits)
  }

  predicate IsNumber(c: char) { c == 'd' || c == 'i' || c == 'u' || c == 'x' || c == 'X' || c == 'o' || c == 'p' }

  function BaseOf(c: char): nat { if c == 'x' || c == 'X' || c == 'p' then 16 else if c == 'o' then 8 else 10 }

  function NumberFlags(fl: Flags, c: char): Flags {
    var fl1 := if BaseOf(c) == 10 then fl.(hash := false) else fl;
    var fl2 := if c == 'X' then fl1.(upper := true) else fl1;
    var fl3 := if c != 'i' && c != 'd' then fl2.(plus := false, space := false) else fl2;
    if fl3.precision then fl3.(zeroPad := false) else fl3
  }

  /** The value and the sign that a number conversion hands to `_ntoa`. */
  function NumberOf(c: char, length: Length, v: int): (Word, bool) {
    if c == 'd' || c == 'i' then
      var s := AsSigned(v, SizeOf(length));
      (Wrap(s), s < 0)
    else if c == 'p' then (Wrap(v), false)
    else (AsUnsigned(v, SizeOf(length)), false)
  }

  function Spaces(n: int): (s: string)
    ensures |s| == if n > 0 then n else 0
  {
    seq(if n > 0 then n else 0, _ => ' ')
  }

  /** A text in a field of the given width. */
  function Justified(t: string, width: nat, left: bool): (s: string)
    ensures |s| == if |t| < width then width else |t|
  {
    if left then t + Spaces(width - |t|) else Spaces(width - |t|) + t
  }

  function CutTo(t: string, s: Spec): (r: string)
    requires s.Spec?
    ensures r <= t
  {
    if s.flags.precision && |t| > s.precision then t[..s.precision] else t
  }

  /** What a directive prints.  `f` is the format from the '%' on.  Texts must fit the scratch buffer. */
  function Convert(f: string, s: Spec): Step
    requires f != "" && s.Spec? && |s.rest| < |f| && (s.starred ==> |f| > 2)
  {
    var c := First(s.rest);
    if IsNumber(c) then
      if s.args == [] || !s.args[0].Int? then Unfit
      else
        var (v, negative) := NumberOf(c, s.length, s.args[0].value);
        Piece(Ntoa(v, BaseOf(c), negative, s.precision, s.width, NumberFlags(s.flags, c)), s.rest[1..], s.args[1..])
    else if c == 'c' then
      if s.args == [] || !s.args[0].Int? || s.width > SIZE then Unfit
      else Piece(Justified([CharOf(s.args[0].value)], s.width, s.flags.left), s.rest[1..], s.args[1..])
    else if c == 's' then
      if s.args == [] || !s.args[0].Text? then Unfit
      else
        var t := Justified(CutTo(s.args[0].text, s), s.width, s.flags.left);
        if |t| > SIZE then Unfit else Piece(t, s.rest[1..], s.args[1..])
    else
      // not a conversion: the first character is printed, and the rest taken as it stands; a starred
      // precision has moved the start of the format by one
      var g := if s.starred then f[1..] else f;
      Piece(g[..1], g[1..], s.args)
  }

  function CharOf(v: int): char { (v % 0x100) as char }

  // ---------- the whole format ----------

  /** How many characters come before the next '%'. */
  function PlainLength(f: string): (n: nat)
    ensures n <= |f|
  {
    if f == "" || f[0] == '%' then 0 else PlainLength(f[1..]) + 1
  }

  /** A literal run, whose first character may be a '%'. */
  function Literal(g: string, args: seq<Arg>): (r: Step)
    requires g != ""
    ensures r.Piece? && |r.rest| < |g|
  {
    var n := 1 + PlainLength(g[1..]);
    Piece(g[..n], g[n..], args)
  }

  /** The next piece of a format that is not empty: a literal run, which "%%" may begin, or a
      directive. */
  function Next(f: string, args: seq<Arg>): (r: Step)
    requires f != ""
    ensures r.Piece? ==> |r.rest| < |f|
  {
    if f[0] != '%' || First(f[1..]) == '%' then Literal(if f[0] == '%' then f[1..] else f, args)
    else
      match TakeSpec(f[1..], args)
      case BadSpec => Unfit
      case Spec(_, _, _, _, _, _, _) => Convert(f, TakeSpec(f[1..], args))
  }

  datatype Output = Printed(text: string) | Failed

  /** All that a format prints with the given arguments. */
  function Render(f: string, args: seq<Arg>): Output
    decreases |f|
  {
    if f == "" then Printed("")
    else
      match Next(f, args)
      case Unfit => Failed
      case Piece(t, rest, args') =>
        match Render(rest, args')
        case Failed => Failed
        case Printed(t') => Printed(t + t')
  }

  // ---------- properties ----------

  /** A number directive prints whatever its flags, width and precision are, within the scratch
      buffer. */
  lemma NumbersFit(f: string, s: Spec)
    requires f != "" && s.Spec? && |s.rest| < |f| && (s.starred ==> |f| > 2)
    requires IsNumber(First(s.rest)) && s.args != [] && s.args[0].Int?
    ensures Convert(f, s).Piece? && |Convert(f, s).text| <= SIZE
  {
    hide Ntoa, NumberFlags;
    var c := First(s.rest);
    var (v, negative) := NumberOf(c, s.length, s.args[0].value);
    NtoaFits(v, BaseOf(c), negative, s.precision, s.width, NumberFlags(s.flags, c));
  }

  lemma NtoaFits(v: Word, base: nat, negative: bool, prec: nat, width: nat, fl: Flags)
    requires 8 <= base <= 16
    ensures |Ntoa(v, base, negative, prec, width, fl)| <= SIZE
  {
    hide Padded, Hashed, Signed, Digits;
    WordDigits(v, base);
    var d, w, fl' := Start(v, base, fl), Width(width, negative, fl), fl.(hash := fl.hash && v != 0);
    PaddedKeeps(d, prec, w, fl);
    HashedFits(Padded(d, prec, w, fl), base, prec, w, fl');
    SignedKeeps(Hashed(Padded(d, prec, w, fl), base, prec, w, fl'), negative, fl);
  }

  /** A text with every '%' doubled. */
  function Doubled(s: string): string {
    if s == "" then "" else (if s[0] == '%' then "%%" else [s[0]]) + Doubled(s[1..])
  }

  lemma {:induction false} DoubledPrefix(s: string)
    ensures var n := PlainLength(s);
            && PlainLength(Doubled(s)) == n && Doubled(s)[..n] == s[..n] && Doubled(s)[n..] == Doubled(s[n..])
  {
    if s != "" && s[0] != '%' {
      DoubledPrefix(s[1..]);
      var n := PlainLength(s[1..]);
      var d := Doubled(s);
      assert d == [s[0]] + Doubled(s[1..]);
      assert d[1..] == Doubled(s[1..]);
      assert d[..n + 1] == [s[0]] + d[1..][..n] && s[..n + 1] == [s[0]] + s[1..][..n];
      assert d[n + 1..] == d[1..][n..] && s[n + 1..] == s[1..][n..];
    } else {
      assert s[0..] == s && Doubled(s)[0..] == Doubled(s);
    }
  }

  /** Printing a text with every '%' doubled, and without arguments, prints the text. */
  lemma {:induction false} DoubledPrints(s: string, args: seq<Arg>)
    ensures Render(Doubled(s), args) == Printed(s)
    decreases |s|
  {
    hide Next, PlainLength, Doubled;
    if s == "" {
      DoubledNothing();
    } else {
      var n := PlainLength(s[1..]);
      DoubledStep(s, args);
      DoubledPrints(s[n + 1..], args);
      assert s == s[..n + 1] + s[n + 1..];
    }
  }

  lemma DoubledNothing()
    ensures Doubled("") == ""
  {
  }

  lemma DoubledStep(s: string, args: seq<Arg>)
    requires s != ""
    ensures var n := PlainLength(s[1..]);
            Doubled(s) != "" && Next(Doubled(s), args) == Piece(s[..n + 1], Doubled(s[n + 1..]), args)
  {
    hide TakeSpec, Convert, PlainLength, Literal, Doubled;
    var d := Doubled(s);
    DoubledOnce(s);
    var g := if s[0] == '%' then d[1..] else d;
    assert g == [s[0]] + Doubled(s[1..]);
    assert Next(d, args) == Literal(g, args);
    RunOf(g, s, args);
  }

  lemma DoubledOnce(s: string)
    requires s != ""
    ensures Doubled(s) == [s[0]] + (if s[0] == '%' then "%" else "") + Doubled(s[1..])
  {
  }

  lemma RunOf(g: string, s: string, args: seq<Arg>)
    requires s != "" && g == [s[0]] + Doubled(s[1..])
    ensures var n := PlainLength(s[1..]);
            Literal(g, args) == Piece(s[..n + 1], Doubled(s[n + 1..]), args)
  {
    hide PlainLength, Doubled;
    var n := PlainLength(s[1..]);
    DoubledPrefix(s[1..]);
    assert g[1..] == Doubled(s[1..]);
    assert g[..n + 1] == [s[0]] + g[1..][..n] && s[..n + 1] == [s[0]] + s[1..][..n];
    assert g[n + 1..] == g[1..][n..] && s[n + 1..] == s[1..][n..];
  }

  /** Joining two texts that fit the scratch buffer with a slash. */
  lemma PathJoin(a: string, b: string)
    requires |a| <= SIZE && |b| <= SIZE
    ensures Render("%s/%s", [Text(a), Text(b)]) == Printed(a + "/" + b)
  {
    hide Render, Next;
    var f1, f2 := "%s/%s", "/%s";
    TextDirective(f1, f2, a, [Text(b)]);
    TextDirective("%s", "", b, []);
    assert [Text(a)] + [Text(b)] == [Text(a), Text(b)] && [Text(b)] + [] == [Text(b)];
    SlashRun([Text(b)]);
    RenderStep(f1, [Text(a), Text(b)]);
    RenderStep(f2, [Text(b)]);
    RenderStep("%s", [Text(b)]);
    RenderEmpty([]);
    assert b + "" == b && a + ("/" + b) == a + "/" + b;
  }

  lemma SlashRun(args: seq<Arg>)
    ensures Next("/%s", args) == Piece("/", "%s", args)
  {
    hide TakeSpec, Convert;
    assert "/%s"[1..] == "%s" && PlainLength("%s") == 0;
  }

  lemma TextDirective(f: string, rest: string, t: string, args: seq<Arg>)
    requires f == "%s" + rest && |t| <= SIZE
    ensures Next(f, [Text(t)] + args) == Piece(t, rest, args)
  {
    var g := f[1..];
    assert g == ['s'] + rest && g[1..] == rest;
    var all := [Text(t)] + args;
    assert all[1..] == args;
    assert TakeFlags(g, NO_FLAGS) == (NO_FLAGS, g) && TakeField(g, all) == Value(0, g, all, false);
    assert Spaces(0 - |t|) == "" && "" + t == t;
  }

  lemma RenderStep(f: string, args: seq<Arg>)
    requires f != "" && Next(f, args).Piece?
    ensures var p := Next(f, args);
            Render(p.rest, p.args).Printed? ==> Render(f, args) == Printed(p.text + Render(p.rest, p.args).text)
  {
    hide Next;
  }

  lemma RenderEmpty(args: seq<Arg>)
    ensures Render("", args) == Printed("")
  {
  }
}
