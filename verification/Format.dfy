/**
 Formatted output of lib/format.c: the unbounded output as a function, and number printing
 with its inverse.
 */
module Format {
  import opened Wrappers

  const INT32_MAX: nat := 0x7fff_ffff
  const U64_LIMIT: nat := 0x1_0000_0000_0000_0000

  /** A variadic argument.  A number is read modulo the width of the type its directive names; a directive
      that meets an argument of the other kind, or none, is undefined in C and reads NULL or 0 here. */
  datatype Arg = Text(text: Option<string>) | Number(value: int)

  // ----- numbers -----

  const LOWER: string := "0123456789abcdef"
  const UPPER: string := "0123456789ABCDEF"

  function Symbol(d: nat, upper: bool): (c: char)
    requires d < 16
  {
    if upper then UPPER[d] else LOWER[d]
  }

  /** Digits without leading zeros, and none for 0. */
  function Digits(v: nat, base: nat, upper: bool): (s: string)
    requires 2 <= base <= 16
    decreases v
  {
    if v == 0 then "" else Digits(v / base, base, upper) + [Symbol(v % base, upper)]
  }

  function Unsigned(v: nat, base: nat, upper: bool): (s: string)
    requires 2 <= base <= 16
  {
    if v == 0 then "0" else Digits(v, base, upper)
  }

  function Signed(v: int): (s: string) {
    if v < 0 then "-" + Unsigned(-(v + 1) + 1, 10, false) else Unsigned(v, 10, false)
  }

  function SymbolValue(c: char): (d: nat) {
    if '0' <= c <= '9' then (c - '0') as int
    else if 'a' <= c <= 'f' then (c - 'a') as int + 10
    else if 'A' <= c <= 'F' then (c - 'A') as int + 10
    else 0
  }

  function ParseUnsigned(s: string, base: nat): (v: nat) {
    if s == "" then 0 else ParseUnsigned(s[..|s| - 1], base) * base + SymbolValue(s[|s| - 1])
  }

  function ParseSigned(s: string): (v: int) {
    if s != "" && s[0] == '-' then -(ParseUnsigned(s[1..], 10) as int) else ParseUnsigned(s, 10)
  }

  lemma SymbolRoundTrip(d: nat, upper: bool)
    requires d < 16
    ensures SymbolValue(Symbol(d, upper)) == d && Symbol(d, upper) != '-'
  {
  }

  lemma QuotientSmaller(v: nat, base: nat)
    requires v > 0 && 2 <= base
    ensures 0 <= v / base < v && v / base * base + v % base == v
  {
    var q := v / base;
    assert v == base * q + v % base && q * base >= q * 2;
  }

  lemma ParseSnoc(s: string, c: char, base: nat)
    ensures ParseUnsigned(s + [c], base) == ParseUnsigned(s, base) * base + SymbolValue(c)
  {
    hide SymbolValue;
    assert (s + [c])[..|s|] == s;
  }

  lemma Recombined(v: nat, base: nat)
    requires base > 0
    ensures v / base * base + v % base == v
  {
  }

  lemma {:induction false} DigitsRoundTrip(v: nat, base: nat, upper: bool)
    requires 2 <= base <= 16
    ensures ParseUnsigned(Digits(v, base, upper), base) == v
    ensures forall c <- Digits(v, base, upper) :: c != '-'
    decreases v
  {
    hide Symbol, SymbolValue, ParseUnsigned;
    if v > 0 {
      QuotientSmaller(v, base);
      DigitsRoundTrip(v / base, base, upper);
      SymbolRoundTrip(v % base, upper);
      ParseSnoc(Digits(v / base, base, upper), Symbol(v % base, upper), base);
      Recombined(v, base);
    } else {
      ParseNothing(base);
    }
  }

  lemma ParseNothing(base: nat)
    ensures ParseUnsigned("", base) == 0
  {
  }

  lemma UnsignedRoundTrip(v: nat, base: nat, upper: bool)
    requires 2 <= base <= 16
    ensures ParseUnsigned(Unsigned(v, base, upper), base) == v
    ensures forall c <- Unsigned(v, base, upper) :: c != '-'
  {
    DigitsRoundTrip(v, base, upper);
    if v == 0 {
      assert "0"[..0] == "";
    }
  }

  /** Every printed integer parses back to its value, the most negative one included. */
  lemma SignedRoundTrip(v: int)
    ensures ParseSigned(Signed(v)) == v
  {
    hide Unsigned, ParseUnsigned;
    if v < 0 {
      UnsignedRoundTrip(-(v + 1) + 1, 10, false);
      assert Signed(v)[1..] == Unsigned(-(v + 1) + 1, 10, false);
    } else {
      UnsignedRoundTrip(v, 10, false);
      var s := Unsigned(v, 10, false);
      assert s != "" ==> s[0] in s;
    }
  }

  function Pow(base: nat, n: nat): (r: nat) {
    if n == 0 then 1 else base * Pow(base, n - 1)
  }

  lemma {:induction false} PowGrows(base: nat, n: nat, m: nat)
    requires base >= 10 && n <= m
    ensures Pow(10, n) <= Pow(base, m)
  {
    if m > 0 {
      if n > 0 {
        PowGrows(base, n - 1, m - 1);
        MulMono(10, base, Pow(10, n - 1), Pow(base, m - 1));
      } else {
        PowGrows(base, 0, m - 1);
        MulMono(1, base, 1, Pow(base, m - 1));
      }
    }
  }

  lemma MulMono(a: nat, b: nat, x: nat, y: nat)
    requires a <= b && x <= y
    ensures a * x <= b * y
  {
    assert b * y - a * x == (b - a) * y + a * (y - x);
  }

  lemma TwentyDigits()
    ensures Pow(10, 20) > U64_LIMIT
  {
    assert Pow(10, 4) == 10000;
    assert Pow(10, 8) == 1_0000_0000;
    assert Pow(10, 12) == 1_0000_0000_0000;
    assert Pow(10, 16) == 1_0000_0000_0000_0000;
  }

  // ----- directives -----

  /** Where the conversion character of the directive that starts at i stands. */
  function Conversion(fmt: string, i: nat): (j: nat)
    requires i + 1 < |fmt|
    ensures i < j <= |fmt|
  {
    if fmt[i + 1] == 'l' then
      if i + 2 < |fmt| && fmt[i + 2] == 'l' then i + 3 else i + 2
    else if fmt[i + 1] == 'z' then i + 2
    else i + 1
  }

  /** No directive from i on breaks off after `l`, `ll` or `z`. */
  predicate Complete(fmt: string, i: nat)
    requires i <= |fmt|
    decreases |fmt| - i
  {
    if i == |fmt| then true
    else if fmt[i] != '%' then Complete(fmt, i + 1)
    else if i + 1 == |fmt| then true
    else Conversion(fmt, i) < |fmt| && Complete(fmt, Conversion(fmt, i) + 1)
  }

  predicate TakesArgument(c: char) {
    c in "scdiuxXp"
  }

  /** 2 to the width of the integer type that a directive with these modifiers reads. */
  function Modulus(wide: bool): (m: nat)
    ensures 0 < m <= U64_LIMIT
  {
    if wide then U64_LIMIT else 0x1_0000_0000
  }

  function NatOf(a: Arg, wide: bool): (v: nat)
    ensures v < U64_LIMIT
  {
    if a.Number? then a.value % Modulus(wide) else 0
  }

  /** Two's complement. */
  function IntOf(a: Arg, wide: bool): (v: int)
    ensures -0x8000_0000_0000_0000 <= v < 0x8000_0000_0000_0000
  {
    var u := NatOf(a, wide);
    if u < Modulus(wide) / 2 then u else u - Modulus(wide)
  }

  function TextOf(a: Arg): (s: string) {
    if a.Text? && a.text.Some? then a.text.value else "(null)"
  }

  /** What one conversion prints; `a` is meaningful only where it takes an argument. */
  function Converted(c: char, wide: bool, a: Arg): (s: string) {
    match c
    case '%' => "%"
    case 's' => TextOf(a)
    case 'c' => [(NatOf(a, false) % 256) as char]
    case 'd' => Signed(IntOf(a, wide))
    case 'i' => Signed(IntOf(a, wide))
    case 'u' => Unsigned(NatOf(a, wide), 10, false)
    case 'x' => Unsigned(NatOf(a, wide), 16, false)
    case 'X' => Unsigned(NatOf(a, wide), 16, true)
    case 'p' => "0x" + Unsigned(NatOf(a, true), 16, false)
    case _ => ['%', c]
  }

  function FirstArg(args: seq<Arg>): (a: Arg) { if args == [] then Number(0) else args[0] }
  function Rest(args: seq<Arg>): (r: seq<Arg>) { if args == [] then [] else args[1..] }

  /** The full output, however long. */
  function Expand(fmt: string, i: nat, args: seq<Arg>): (s: string)
    requires i <= |fmt| && Complete(fmt, i)
    decreases |fmt| - i
  {
    if i == |fmt| then ""
    else if fmt[i] != '%' then [fmt[i]] + Expand(fmt, i + 1, args)
    else if i + 1 == |fmt| then "%"
    else
      var j := Conversion(fmt, i);
      Converted(fmt[j], j > i + 1, FirstArg(args))
        + Expand(fmt, j + 1, if TakesArgument(fmt[j]) then Rest(args) else args)
  }

  // ----- what the directives print -----

  /** v is n modulo m, between low and low + m. */
  ghost predicate Residue(v: int, n: int, m: nat, low: int)
    requires m > 0
  {
    low <= v < low + m && exists k: int :: Multiple(n, v, k, m)
  }

  ghost predicate Multiple(n: int, v: int, k: int, m: nat) { n == v + k * m }

  lemma NatResidue(n: int, m: nat)
    requires m > 0
    ensures Residue(n % m, n, m, 0)
  {
    assert n == n % m + (n / m) * m;
    assert Multiple(n, n % m, n / m, m);
  }

  lemma NumberResidues(n: int, wide: bool)
    ensures var m := if wide then 0x1_0000_0000_0000_0000 else 0x1_0000_0000;
            && Residue(NatOf(Number(n), wide), n, m, 0)
            && Residue(IntOf(Number(n), wide), n, m, -(m / 2))
  {
    var m := Modulus(wide);
    NatResidue(n, m);
    var u, v := NatOf(Number(n), wide), IntOf(Number(n), wide);
    var k: int :| Multiple(n, u, k, m);
    assert Multiple(n, v, if v == u then k else k + 1, m) by { NextMultiple(k, m); }
  }

  lemma NextMultiple(k: int, m: int)
    ensures (k + 1) * m == k * m + m
  {
  }

  /** What a directive prints parses back to the argument: for d and i in base ten and two's complement, for u in base
      ten, for x, X and p in base sixteen, each in the width its modifiers give. */
  lemma NumbersParseBack(n: int, wide: bool)
    ensures var m := if wide then 0x1_0000_0000_0000_0000 else 0x1_0000_0000;
            var a := Number(n);
            && Residue(ParseSigned(Converted('d', wide, a)), n, m, -(m / 2))
            && Residue(ParseSigned(Converted('i', wide, a)), n, m, -(m / 2))
            && Residue(ParseUnsigned(Converted('u', wide, a), 10), n, m, 0)
            && Residue(ParseUnsigned(Converted('x', wide, a), 16), n, m, 0)
            && Residue(ParseUnsigned(Converted('X', wide, a), 16), n, m, 0)
  {
    hide Residue, ParseSigned, ParseUnsigned, Signed, Unsigned, NatOf, IntOf;
    NumberResidues(n, wide);
    SignedRoundTrip(IntOf(Number(n), wide));
    UnsignedRoundTrip(NatOf(Number(n), wide), 10, false);
    UnsignedRoundTrip(NatOf(Number(n), wide), 16, false);
    UnsignedRoundTrip(NatOf(Number(n), wide), 16, true);
  }

  /** p prints 0x and the 64-bit value, c the character with the low byte as its code, s the text, % itself. */
  lemma OthersPrint(n: int, wide: bool, text: string)
    ensures var p := Converted('p', wide, Number(n));
            |p| > 2 && p[..2] == "0x" && Residue(ParseUnsigned(p[2..], 16), n, 0x1_0000_0000_0000_0000, 0)
    ensures Converted('c', wide, Number(n)) == [(n % 256) as char]
    ensures Converted('s', wide, Text(Some(text))) == text && Converted('s', wide, Text(None)) == "(null)"
    ensures Converted('%', wide, Number(n)) == "%"
  {
    hide Residue, ParseUnsigned;
    NumberResidues(n, true);
    var u := Unsigned(NatOf(Number(n), true), 16, false);
    var p := Converted('p', wide, Number(n));
    UnsignedRoundTrip(NatOf(Number(n), true), 16, false);
    SomeDigits(NatOf(Number(n), true), 16, false);
    assert p == "0x" + u && p[2..] == u;
    LowByte(n);
  }

  lemma SomeDigits(v: nat, base: nat, upper: bool)
    requires 2 <= base <= 16
    ensures Unsigned(v, base, upper) != ""
  {
  }

  lemma LowByte(n: int)
    ensures n % 0x1_0000_0000 % 256 == n % 256
  {
    var q, r := n / 0x1_0000_0000, n % 0x1_0000_0000;
    assert n == 256 * (0x100_0000 * q) + r;
    SameRemainder(0x100_0000 * q, r);
  }

  lemma SameRemainder(k: int, r: int)
    ensures (256 * k + r) % 256 == r % 256
  {
  }

  /** No number but 0 starts with a 0, small letters and capitals as asked for. */
  lemma {:induction false} DigitsAreProper(v: nat, base: nat, upper: bool)
    requires 2 <= base <= 16
    ensures var s := Digits(v, base, upper);
            && (v > 0 ==> s != "" && s[0] != '0')
            && forall i :: 0 <= i < |s| ==> s[i] in (if upper then "0123456789ABCDEF" else "0123456789abcdef")
    decreases v
  {
    hide SymbolValue;
    if v > 0 {
      QuotientSmaller(v, base);
      DigitsAreProper(v / base, base, upper);
      if v / base == 0 {
        assert Digits(v / base, base, upper) == "";
        Recombined(v, base);
      }
    }
  }

  // ----- where the directives are -----

  /** The output from i on depends on the rest of the format alone. */
  lemma {:induction false} ExpandShift(fmt: string, i: nat, d: nat, args: seq<Arg>)
    requires d <= i <= |fmt|
    ensures Complete(fmt, i) <==> Complete(fmt[d..], i - d)
    ensures Complete(fmt, i) ==> Expand(fmt, i, args) == Expand(fmt[d..], i - d, args)
    decreases |fmt| - i
  {
    hide Expand, Complete, Converted, Conversion, TakesArgument, Rest, FirstArg;
    var rest := fmt[d..];
    Unfold(fmt, i, args);
    Unfold(rest, i - d, args);
    if i < |fmt| {
      assert rest[i - d] == fmt[i];
      if fmt[i] != '%' {
        ExpandShift(fmt, i + 1, d, args);
      } else if i + 1 < |fmt| {
        ShiftedConversion(fmt, i, d);
        var j := Conversion(fmt, i);
        if j < |fmt| {
          ExpandShift(fmt, j + 1, d, if TakesArgument(fmt[j]) then Rest(args) else args);
        }
      }
    }
  }

  /** One step of Complete and Expand. */
  lemma Unfold(fmt: string, i: nat, args: seq<Arg>)
    requires i <= |fmt|
    ensures i == |fmt| ==> Complete(fmt, i) && Expand(fmt, i, args) == ""
    ensures i < |fmt| && fmt[i] != '%' ==>
              (Complete(fmt, i) <==> Complete(fmt, i + 1)) && (Complete(fmt, i) ==> Expand(fmt, i, args) == [fmt[i]] + Expand(fmt, i + 1, args))
    ensures i + 1 == |fmt| && fmt[i] == '%' ==> Complete(fmt, i) && Expand(fmt, i, args) == "%"
    ensures i + 1 < |fmt| && fmt[i] == '%' ==>
              var j := Conversion(fmt, i);
              var next := if j < |fmt| && TakesArgument(fmt[j]) then Rest(args) else args;
              && (Complete(fmt, i) <==> j < |fmt| && Complete(fmt, j + 1))
              && (Complete(fmt, i) ==> Expand(fmt, i, args) == Converted(fmt[j], j > i + 1, FirstArg(args)) + Expand(fmt, j + 1, next))
  {
    hide Converted, Conversion, TakesArgument, Rest, FirstArg;
  }

  lemma ShiftedConversion(fmt: string, i: nat, d: nat)
    requires d <= i && i + 1 < |fmt|
    ensures Conversion(fmt[d..], i - d) + d == Conversion(fmt, i)
    ensures Conversion(fmt, i) < |fmt| ==> fmt[d..][Conversion(fmt, i) - d] == fmt[Conversion(fmt, i)]
  {
  }

  lemma {:induction false} PlainText(text: string, rest: string, args: seq<Arg>)
    requires '%' !in text && Complete(rest, 0)
    ensures Complete(text + rest, 0) && Expand(text + rest, 0, args) == text + Expand(rest, 0, args)
  {
    hide Expand, Complete;
    var fmt := text + rest;
    if text == "" {
      assert fmt == rest;
    } else {
      assert fmt[0] == text[0] && text[0] in text;
      PlainText(text[1..], rest, args);
      assert fmt[1..] == text[1..] + rest;
      ExpandShift(fmt, 1, 1, args);
      PlainCharacter(fmt, args);
      assert text == [text[0]] + text[1..];
    }
  }

  lemma PlainCharacter(fmt: string, args: seq<Arg>)
    requires fmt != "" && fmt[0] != '%' && Complete(fmt, 1)
    ensures Complete(fmt, 0) && Expand(fmt, 0, args) == [fmt[0]] + Expand(fmt, 1, args)
  {
    hide Converted, Conversion;
  }

  /** A directive is a percent sign, no modifier or one of l, ll and z, and a conversion; text before it is copied. */
  lemma DirectiveExpands(text: string, modifier: string, c: char, rest: string, args: seq<Arg>)
    requires '%' !in text && modifier in {"", "l", "ll", "z"} && c != 'l' && c != 'z' && Complete(rest, 0)
    ensures var fmt := text + (['%'] + modifier + [c] + rest);
            && Complete(fmt, 0)
            && Expand(fmt, 0, args) ==
               text + Converted(c, modifier != "", if args == [] then Number(0) else args[0])
               + Expand(rest, 0, if c in "scdiuxXp" && args != [] then args[1..] else args)
  {
    hide Converted, Expand, Complete;
    var tail := ['%'] + modifier + [c] + rest;
    OneDirective(modifier, c, rest, args);
    PlainText(text, tail, args);
  }

  lemma OneDirective(modifier: string, c: char, rest: string, args: seq<Arg>)
    requires modifier in {"", "l", "ll", "z"} && c != 'l' && c != 'z' && Complete(rest, 0)
    ensures var fmt := ['%'] + modifier + [c] + rest;
            && Complete(fmt, 0)
            && Expand(fmt, 0, args) == Converted(c, modifier != "", FirstArg(args)) + Expand(rest, 0, if TakesArgument(c) then Rest(args) else args)
  {
    hide Converted, TakesArgument;
    var fmt := ['%'] + modifier + [c] + rest;
    var j := 1 + |modifier|;
    assert fmt[j] == c && fmt[j + 1..] == rest;
    assert Conversion(fmt, 0) == j;
    ExpandShift(fmt, j + 1, j + 1, if TakesArgument(c) then Rest(args) else args);
  }

  // ----- the truncating sink -----

  /** What a buffer of this size holds of an output: the longest prefix that leaves room for NUL. */
  ghost predicate Truncates(was: seq<char>, now: seq<char>, out: string) {
    |now| == |was| && (|now| > 0 ==>
      var n := if |out| < |now| then |out| else |now| - 1;
      now[..n] == out[..n] && now[n] == '\0' && now[n + 1..] == was[n + 1..])
  }

  /** A format directive never writes outside the buffer, and the length counts everything. */
  class Sink {
    const buffer: array<char>
    var length: nat
    ghost const was: seq<char>   // what the buffer held
    ghost var out: string        // everything put so far

    ghost predicate Valid()
      reads this, buffer
    {
      && length == |out| && |was| == buffer.Length
      && (forall k :: length <= k < buffer.Length ==> buffer[k] == was[k])
      && forall k :: 0 <= k < length && k + 1 < buffer.Length ==> buffer[k] == out[k]
    }

    constructor (buffer: array<char>)
      ensures Valid() && this.buffer == buffer && this.was == buffer[..] && out == ""
    {
      this.buffer, this.was, this.length, this.out := buffer, buffer[..], 0, "";
    }

    method Putc(c: char)
      requires Valid()
      modifies this, buffer
      ensures Valid() && out == old(out) + [c]
    {
      if buffer.Length != 0 && length + 1 < buffer.Length {
        buffer[length] := c;
      }
      length := length + 1;
      out := out + [c];
    }

    method Write(text: string)
      requires Valid()
      modifies this, buffer
      ensures Valid() && out == old(out) + text
    {
      var i := 0;
      while i < |text|
        invariant i <= |text| && Valid() && out == old(out) + text[..i]
      {
        Putc(text[i]);
        i := i + 1;
        assert text[..i] == text[..i - 1] + [text[i - 1]];
      }
      assert text[..i] == text;
    }

    /** The digits fit the local array of 32. */
    method WriteUnsigned(v: nat, base: nat, upper: bool)
      requires Valid() && v < U64_LIMIT && 10 <= base <= 16
      modifies this, buffer
      ensures Valid() && out == old(out) + Unsigned(v, base, upper)
    {
      hide Digits, Reversed;
      if v == 0 {
        Putc('0');
        return;
      }
      var digits, count := CollectDigits(v, base, upper);
      ghost var all := Reversed(digits[..count]);
      ghost var n := count;
      while count != 0
        invariant count <= n <= 20 && Valid() && fresh(digits) && digits.Length == 32
        invariant all == Reversed(digits[..n]) && out == old(out) + all[..n - count]
      {
        count := count - 1;
        assert all[n - count - 1] == digits[..n][count];
        assert all[..n - count] == all[..n - count - 1] + [all[n - count - 1]];
        Putc(digits[count]);
      }
      assert all[..n] == all;
    }

    method WriteSigned(v: int)
      requires Valid() && -0x8000_0000_0000_0000 <= v < 0x8000_0000_0000_0000
      modifies this, buffer
      ensures Valid() && out == old(out) + Signed(v)
    {
      hide Unsigned, Valid;
      if v < 0 {
        Putc('-');
        WriteUnsigned(-(v + 1) + 1, 10, false);
        Associates(old(out), "-", Unsigned(-(v + 1) + 1, 10, false));
      } else {
        WriteUnsigned(v, 10, false);
      }
    }
  }

  /** The division loop leaves the digits in the array, least significant first. */
  method CollectDigits(v: nat, base: nat, upper: bool) returns (digits: array<char>, count: nat)
    requires 0 < v < U64_LIMIT && 10 <= base <= 16
    ensures fresh(digits) && digits.Length == 32 && count <= 20
    ensures Reversed(digits[..count]) == Digits(v, base, upper)
  {
    hide Reversed, Symbol, Pow;
    digits := new char[32](_ => '0');
    count := 0;
    var value := v;
    assert Pow(base, 0) == 1 by { PowZero(base); }
    while value != 0
      invariant count <= 20 && digits.Length == 32 && 0 <= value
      invariant Digits(v, base, upper) == Digits(value, base, upper) + Reversed(digits[..count])
      invariant value * Pow(base, count) <= v
      decreases value
    {
      AtMostTwenty(value, base, count, v);
      QuotientSmaller(value, base);
      ghost var before := digits[..count];
      var c := Symbol(value % base, upper);
      digits[count] := c;
      ReversedSnoc(before, c);
      assert digits[..count + 1] == before + [c];
      assert Digits(value, base, upper) + Reversed(before) == Digits(value / base, base, upper) + ([c] + Reversed(before));
      ShiftBound(value, base, count, v);
      value, count := value / base, count + 1;
    }
  }

  lemma PowZero(base: nat)
    ensures Pow(base, 0) == 1
  {
  }

  /** Bounded formatting truncates the unbounded form: the buffer holds the longest prefix of the full
      output that leaves room for its terminator, what is behind the terminator stays as it was, and the
      result is the full length, clamped. */
  method Vsnprintf(buffer: array<char>, fmt: string, args: seq<Arg>) returns (r: int)
    requires Complete(fmt, 0)
    modifies buffer
    ensures Truncates(old(buffer[..]), buffer[..], Expand(fmt, 0, args))
    ensures r == if |Expand(fmt, 0, args)| > INT32_MAX then INT32_MAX else |Expand(fmt, 0, args)|
  {
    hide Converted, Conversion, Expand, Sink.Valid, Complete, Truncates;
    var sink := new Sink(buffer);
    var i, rest := 0, args;
    while i < |fmt|
      invariant i <= |fmt| && Complete(fmt, i) && sink.Valid() && sink.buffer == buffer && fresh(sink)
      invariant sink.out + Expand(fmt, i, rest) == Expand(fmt, 0, args)
      decreases |fmt| - i
    {
      ExpandStep(fmt, i, rest, sink.out);
      if fmt[i] != '%' {
        sink.Putc(fmt[i]);
        i := i + 1;
      } else if i + 1 == |fmt| {
        sink.Putc('%');
        i := i + 1;
      } else {
        var j := Conversion(fmt, i);
        Convert(sink, fmt[j], j > i + 1, FirstArg(rest));
        rest := if TakesArgument(fmt[j]) then Rest(rest) else rest;
        i := j + 1;
      }
    }
    ExpandEnd(fmt, rest);
    assert sink.out == Expand(fmt, 0, args);
    r := Finish(sink);
  }

  /** The terminator, and the result. */
  method Finish(sink: Sink) returns (r: int)
    requires sink.Valid()
    modifies sink.buffer
    ensures Truncates(sink.was, sink.buffer[..], sink.out)
    ensures r == if |sink.out| > INT32_MAX then INT32_MAX else |sink.out|
  {
    if sink.buffer.Length != 0 {
      var terminator := if sink.length < sink.buffer.Length then sink.length else sink.buffer.Length - 1;
      sink.buffer[terminator] := '\0';
    }
    r := if sink.length > INT32_MAX then INT32_MAX else sink.length;
  }

  lemma ExpandEnd(fmt: string, args: seq<Arg>)
    requires Complete(fmt, |fmt|)
    ensures Expand(fmt, |fmt|, args) == ""
  {
  }

  /** One turn of the loop moves what a directive prints from the rest of the output to its front. */
  lemma ExpandStep(fmt: string, i: nat, args: seq<Arg>, out: string)
    requires i < |fmt| && Complete(fmt, i)
    ensures fmt[i] != '%' ==> Complete(fmt, i + 1) && out + Expand(fmt, i, args) == out + [fmt[i]] + Expand(fmt, i + 1, args)
    ensures fmt[i] == '%' && i + 1 == |fmt| ==> Complete(fmt, i + 1) && out + Expand(fmt, i, args) == out + "%" + Expand(fmt, i + 1, args)
    ensures fmt[i] == '%' && i + 1 < |fmt| ==>
              var j := Conversion(fmt, i);
              var rest := if j < |fmt| && TakesArgument(fmt[j]) then Rest(args) else args;
              && j < |fmt| && Complete(fmt, j + 1)
              && out + Expand(fmt, i, args) == out + Converted(fmt[j], j > i + 1, FirstArg(args)) + Expand(fmt, j + 1, rest)
  {
    hide Converted, Conversion, TakesArgument;
    if fmt[i] != '%' {
      Associates(out, [fmt[i]], Expand(fmt, i + 1, args));
    } else if i + 1 == |fmt| {
      assert Expand(fmt, i + 1, args) == "";
    } else {
      var j := Conversion(fmt, i);
      Associates(out, Converted(fmt[j], j > i + 1, FirstArg(args)), Expand(fmt, j + 1, if TakesArgument(fmt[j]) then Rest(args) else args));
    }
  }

  lemma Associates(a: string, b: string, c: string)
    ensures a + (b + c) == a + b + c
  {
  }

  method Convert(sink: Sink, c: char, wide: bool, a: Arg)
    requires sink.Valid()
    modifies sink, sink.buffer
    ensures sink.Valid() && sink.out == old(sink.out) + Converted(c, wide, a)
  {
    hide Signed, Unsigned;
    match c
    case '%' => sink.Putc('%');
    case 's' => sink.Write(TextOf(a));
    case 'c' => sink.Putc((NatOf(a, false) % 256) as char);
    case 'd' => sink.WriteSigned(IntOf(a, wide));
    case 'i' => sink.WriteSigned(IntOf(a, wide));
    case 'u' => sink.WriteUnsigned(NatOf(a, wide), 10, false);
    case 'x' => sink.WriteUnsigned(NatOf(a, wide), 16, false);
    case 'X' => sink.WriteUnsigned(NatOf(a, wide), 16, true);
    case 'p' =>
      sink.Write("0x");
      sink.WriteUnsigned(NatOf(a, true), 16, false);
    case _ =>
      sink.Putc('%');
      sink.Putc(c);
  }

  lemma ReversedSnoc(s: seq<char>, c: char)
    ensures Reversed(s + [c]) == [c] + Reversed(s)
  {
    assert (s + [c])[..|s|] == s;
  }

  lemma AtMostTwenty(value: nat, base: nat, count: nat, v: nat)
    requires value > 0 && 10 <= base && value * Pow(base, count) <= v < U64_LIMIT && count <= 20
    ensures count < 20
  {
    if count == 20 {
      TwentyDigits();
      PowGrows(base, 20, 20);
      MulMono(1, value, Pow(base, 20), Pow(base, 20));
    }
  }

  lemma ShiftBound(value: nat, base: nat, count: nat, v: nat)
    requires base > 0 && value * Pow(base, count) <= v
    ensures value / base * Pow(base, count + 1) <= v
  {
    var q, p := value / base, Pow(base, count);
    assert q * Pow(base, count + 1) == q * base * p by { assert Pow(base, count + 1) == base * p; }
    MulMono(q * base, value, p, p);
  }
}
