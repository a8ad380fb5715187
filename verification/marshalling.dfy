/**
 Turning flag values into text and text into flag values.

 Each parser is given a reference: for integers, the set of texts that denote a value; for vectors,
 optionals, severities and booleans, the printer. A parsed flag is an `Option`: None when the text
 is refused.
 */
module Marshalling {
  import opened Options

  // ----- ASCII

  predicate IsSpace(c: char) {
    c == ' ' || 9 <= c as int <= 13
  }

  function StripLeading(s: string): (r: string)
    ensures r == "" || !IsSpace(r[0])
    ensures |r| <= |s|
  {
    if s != "" && IsSpace(s[0]) then StripLeading(s[1..]) else s
  }

  function StripTrailing(s: string): (r: string)
    ensures r == "" || !IsSpace(r[|r| - 1])
    ensures r <= s
  {
    if s != "" && IsSpace(s[|s| - 1]) then StripTrailing(s[..|s| - 1]) else s
  }

  function Strip(s: string): string {
    StripTrailing(StripLeading(s))
  }

  function ToLower(c: char): char {
    if 'A' <= c <= 'Z' then ((c as int) + 32) as char else c
  }

  predicate EqualsIgnoreCase(a: string, b: string) {
    |a| == |b| && forall i :: 0 <= i < |a| ==> ToLower(a[i]) == ToLower(b[i])
  }

  /** Space, tab, line feed, vertical tab, form feed and carriage return. */
  lemma SpacesAre(c: char)
    ensures IsSpace(c) <==> c in {' ', '\t', '\n', '\U{0B}', '\U{0C}', '\r'}
  {
  }

  const CAPITALS := "ABCDEFGHIJKLMNOPQRSTUVWXYZ"
  const SMALLS := "abcdefghijklmnopqrstuvwxyz"

  /** Are they the capital and the small form of one letter, in either order? */
  ghost predicate SameLetter(c: char, d: char) {
    exists i :: 0 <= i < 26 && ((c == CAPITALS[i] && d == SMALLS[i]) || (c == SMALLS[i] && d == CAPITALS[i]))
  }

  lemma Alphabet(i: nat)
    requires i < 26
    ensures CAPITALS[i] as int == 'A' as int + i && SMALLS[i] as int == 'a' as int + i
  {
  }

  predicate ThirtyTwoAbove(capital: char, small: char) {
    'A' <= capital <= 'Z' && small as int == capital as int + 32
  }

  lemma {:induction false} LetterAt(c: char, d: char, i: nat)
    requires i < 26
    ensures c == CAPITALS[i] && d == SMALLS[i] <==> ThirtyTwoAbove(c, d) && c as int == 'A' as int + i
  {
    Alphabet(i);
  }

  lemma {:induction false} LettersPair(c: char, d: char)
    ensures SameLetter(c, d) <==> ThirtyTwoAbove(c, d) || ThirtyTwoAbove(d, c)
  {
    if i :| 0 <= i < 26 && ((c == CAPITALS[i] && d == SMALLS[i]) || (c == SMALLS[i] && d == CAPITALS[i])) {
      LetterAt(c, d, i);
      LetterAt(d, c, i);
    }
    if ThirtyTwoAbove(c, d) {
      LetterAt(c, d, c as int - 'A' as int);
    }
    if ThirtyTwoAbove(d, c) {
      LetterAt(d, c, d as int - 'A' as int);
    }
  }

  /** Only the case of letters is ignored. */
  lemma {:induction false} CaseIgnored(c: char, d: char)
    ensures ToLower(c) == ToLower(d) <==> c == d || SameLetter(c, d)
  {
    LettersPair(c, d);
    hide SameLetter;
  }

  predicate AllSpace(s: string) {
    forall i :: 0 <= i < |s| ==> IsSpace(s[i])
  }

  /** No space at either end. */
  predicate Trimmed(s: string) {
    s == "" || (!IsSpace(s[0]) && !IsSpace(s[|s| - 1]))
  }

  lemma {:induction false} StripLeadingPads(pad: string, s: string)
    requires AllSpace(pad) && (s == "" || !IsSpace(s[0]))
    ensures StripLeading(pad + s) == s
  {
    if pad == "" {
      assert pad + s == s;
    } else {
      assert (pad + s)[1..] == pad[1..] + s;
      StripLeadingPads(pad[1..], s);
    }
  }

  lemma {:induction false} StripTrailingPads(s: string, pad: string)
    requires AllSpace(pad) && (s == "" || !IsSpace(s[|s| - 1]))
    ensures StripTrailing(s + pad) == s
  {
    if pad == "" {
      assert s + pad == s;
    } else {
      assert (s + pad)[..|s + pad| - 1] == s + pad[..|pad| - 1];
      StripTrailingPads(s, pad[..|pad| - 1]);
    }
  }

  /** Padding is all that stripping removes. */
  lemma {:induction false} StripPads(left: string, s: string, right: string)
    requires AllSpace(left) && AllSpace(right) && Trimmed(s)
    ensures Strip(left + s + right) == s
  {
    if s == "" {
      assert left + s + right == (left + right) + "";
      StripLeadingPads(left + right, "");
    } else {
      assert left + s + right == left + (s + right);
      StripLeadingPads(left, s + right);
      StripTrailingPads(s, right);
    }
  }

  lemma {:induction false} StripLeadingSplits(s: string) returns (pad: string)
    ensures AllSpace(pad) && s == pad + StripLeading(s)
  {
    if s != "" && IsSpace(s[0]) {
      var rest := StripLeadingSplits(s[1..]);
      pad := [s[0]] + rest;
    } else {
      pad := "";
    }
  }

  lemma {:induction false} StripTrailingSplits(s: string) returns (pad: string)
    ensures AllSpace(pad) && s == StripTrailing(s) + pad
  {
    if s != "" && IsSpace(s[|s| - 1]) {
      var rest := StripTrailingSplits(s[..|s| - 1]);
      pad := rest + [s[|s| - 1]];
    } else {
      pad := "";
    }
  }

  lemma {:induction false} StripSplits(s: string) returns (left: string, right: string)
    ensures AllSpace(left) && AllSpace(right) && Trimmed(Strip(s)) && s == left + Strip(s) + right
  {
    hide StripLeading, StripTrailing, IsSpace, AllSpace;
    left := StripLeadingSplits(s);
    right := StripTrailingSplits(StripLeading(s));
    Associate(left, Strip(s), right);
  }

  // ----- Digits

  function DigitOf(c: char): (d: nat)
    ensures d <= 36
  {
    if '0' <= c <= '9' then c as int - '0' as int
    else if 'A' <= c <= 'Z' then c as int - 'A' as int + 10
    else if 'a' <= c <= 'z' then c as int - 'a' as int + 10
    else 36
  }

  const LOWER_DIGITS := "0123456789abcdefghijklmnopqrstuvwxyz"
  const UPPER_DIGITS := "0123456789ABCDEFGHIJKLMNOPQRSTUVWXYZ"

  lemma DigitWritten(d: nat)
    requires d < 36
    ensures LOWER_DIGITS[d] as int == if d < 10 then '0' as int + d else 'a' as int + d - 10
    ensures UPPER_DIGITS[d] as int == if d < 10 then '0' as int + d else 'A' as int + d - 10
  {
  }

  /** The digits of every base up to 36, in either case. */
  lemma {:induction false} DigitsAre(c: char, d: nat)
    requires d < 36
    ensures DigitOf(c) == d <==> c == LOWER_DIGITS[d] || c == UPPER_DIGITS[d]
  {
    DigitWritten(d);
  }

  predicate AllDigits(s: string, base: nat) {
    forall i :: 0 <= i < |s| ==> DigitOf(s[i]) < base
  }

  /** The number a string of digits stands for. */
  function Magnitude(s: string, base: nat): nat {
    if s == "" then 0 else Magnitude(s[..|s| - 1], base) * base + DigitOf(s[|s| - 1])
  }

  lemma {:induction false} MagnitudePrefix(s: string, base: nat, i: nat)
    requires i <= |s| && base >= 1
    ensures Magnitude(s[..i], base) <= Magnitude(s, base)
  {
    if i == |s| {
      assert s[..i] == s;
    } else {
      assert s[..|s| - 1][..i] == s[..i];
      MagnitudePrefix(s[..|s| - 1], base, i);
      Grows(Magnitude(s[..|s| - 1], base), base);
    }
  }

  lemma Grows(a: nat, b: nat)
    requires b >= 1
    ensures a <= a * b
  {
  }

  lemma {:induction false} MagnitudeStep(s: string, base: nat, i: nat)
    requires i < |s|
    ensures Magnitude(s[..i + 1], base) == Magnitude(s[..i], base) * base + DigitOf(s[i])
  {
    assert s[..i + 1][..i] == s[..i];
  }

  function Power(base: nat, n: nat): nat {
    if n == 0 then 1 else base * Power(base, n - 1)
  }

  /** A digit counts as often as the number of values the digits behind it can take. */
  lemma {:induction false} MagnitudeWeighs(s: string, base: nat)
    requires s != ""
    ensures Magnitude(s, base) == DigitOf(s[0]) * Power(base, |s| - 1) + Magnitude(s[1..], base)
  {
    var front, last := s[..|s| - 1], s[|s| - 1];
    if front == "" {
      assert s[..0] == "";
    } else {
      MagnitudeWeighs(front, base);
      assert s[1..][..|s| - 2] == front[1..];
      hide DigitOf;
      Weighed(DigitOf(s[0]), Power(base, |s| - 2), Magnitude(front[1..], base), base);
    }
  }

  lemma {:induction false} Weighed(digit: nat, power: nat, rest: nat, base: nat)
    ensures (digit * power + rest) * base == digit * (base * power) + rest * base
  {
    assert digit * power * base == digit * (base * power);
  }

  lemma NoDigitsYet(s: string, base: nat)
    ensures AllDigits(s[..0], base) && Magnitude(s[..0], base) == 0
  {
  }

  lemma DigitsStep(s: string, base: nat, i: nat)
    requires i < |s|
    ensures AllDigits(s[..i + 1], base) <==> AllDigits(s[..i], base) && DigitOf(s[i]) < base
  {
  }

  /** Where and why consuming digits stopped before the end. */
  ghost predicate StoppedAt(s: string, base: nat, limit: nat, i: nat, value: nat) {
    && i < |s| && AllDigits(s[..i], base) && Magnitude(s[..i], base) <= limit
    && if DigitOf(s[i]) >= base then value == Magnitude(s[..i], base)
       else Magnitude(s[..i + 1], base) > limit && value == limit
  }

  lemma {:induction false} StoppedRefuses(s: string, base: nat, limit: nat, i: nat, value: nat)
    requires base >= 1 && StoppedAt(s, base, limit, i, value)
    ensures !(AllDigits(s, base) && Magnitude(s, base) <= limit)
  {
    if DigitOf(s[i]) < base {
      MagnitudePrefix(s, base, i + 1);
    }
  }

  /** Consume digits upwards, refusing before any step that would pass `vmax`. */
  method SafeParsePositiveInt(text: string, base: nat, vmax: nat) returns (ok: bool, value: nat)
    requires 2 <= base <= 36 && base <= vmax
    ensures ok <==> AllDigits(text, base) && Magnitude(text, base) <= vmax
    ensures ok ==> value == Magnitude(text, base)
    ensures !ok ==> exists i: nat :: StoppedAt(text, base, vmax, i, value)
  {
    hide DigitOf, AllDigits, Magnitude;
    value := 0;
    NoDigitsYet(text, base);
    var vmaxOverBase := vmax / base;
    for i := 0 to |text|
      invariant AllDigits(text[..i], base) && value == Magnitude(text[..i], base) <= vmax
    {
      var digit := DigitOf(text[i]);
      MagnitudeStep(text, base, i);
      DigitsStep(text, base, i);
      if digit >= base {
        StoppedRefuses(text, base, vmax, i, value);
        assert StoppedAt(text, base, vmax, i, value);
        return false, value;
      }
      AboveBase(value, base, vmax);
      if value > vmaxOverBase {
        StoppedRefuses(text, base, vmax, i, vmax);
        assert StoppedAt(text, base, vmax, i, vmax);
        return false, vmax;
      }
      value := value * base;
      if value > vmax - digit {
        StoppedRefuses(text, base, vmax, i, vmax);
        assert StoppedAt(text, base, vmax, i, vmax);
        return false, vmax;
      }
      value := value + digit;
    }
    assert text[..|text|] == text;
    ok := true;
  }

  lemma {:induction false} AboveBase(value: nat, base: nat, vmax: nat)
    requires base >= 1
    ensures value > vmax / base <==> value * base > vmax
  {
    if value > vmax / base {
      OverBase(value, base, vmax);
    } else {
      UnderBase(value, base, vmax);
    }
  }

  lemma {:induction false} OverBase(value: nat, base: nat, vmax: nat)
    requires base >= 1 && value > vmax / base
    ensures value * base > vmax
  {
    assert vmax < (vmax / base + 1) * base;
    Multiply(vmax / base + 1, value, base);
  }

  lemma {:induction false} UnderBase(value: nat, base: nat, vmax: nat)
    requires base >= 1 && value <= vmax / base
    ensures value * base <= vmax
  {
    assert vmax / base * base <= vmax;
    Multiply(value, vmax / base, base);
  }

  lemma Multiply(a: nat, b: nat, c: nat)
    requires a <= b
    ensures a * c <= b * c
  {
  }

  /** Division and remainder that round towards zero. */
  function TruncatedDiv(a: int, b: nat): int
    requires b > 0
  {
    if a >= 0 then a / b else -(-a / b)
  }

  function TruncatedMod(a: int, b: nat): int
    requires b > 0
  {
    a - TruncatedDiv(a, b) * b
  }

  ghost predicate StoppedBelow(s: string, base: nat, vmin: int, i: nat, value: int) {
    vmin <= 0 && value <= 0 && StoppedAt(s, base, -vmin, i, -value)
  }

  /** Consume digits downwards; only so is the least value of a width reached without overflow. */
  method SafeParseNegativeInt(text: string, base: nat, vmin: int) returns (ok: bool, value: int)
    requires 2 <= base <= 36 && vmin + base <= 0
    ensures ok <==> AllDigits(text, base) && vmin + Magnitude(text, base) <= 0
    ensures ok ==> value + Magnitude(text, base) == 0
    ensures !ok ==> exists i: nat :: StoppedBelow(text, base, vmin, i, value)
  {
    hide TruncatedDiv, TruncatedMod, DigitOf, AllDigits, Magnitude;
    value := 0;
    NoDigitsYet(text, base);
    var vminOverBase := TruncatedDiv(vmin, base);
    NoPositiveRemainder(vmin, base);
    if TruncatedMod(vmin, base) > 0 {
      vminOverBase := vminOverBase + 1;
    }
    for i := 0 to |text|
      invariant AllDigits(text[..i], base) && value + Magnitude(text[..i], base) == 0 && vmin <= value <= 0
    {
      var digit := DigitOf(text[i]);
      MagnitudeStep(text, base, i);
      DigitsStep(text, base, i);
      if digit >= base {
        StoppedRefuses(text, base, -vmin, i, -value);
        assert StoppedBelow(text, base, vmin, i, value);
        return false, value;
      }
      BelowBase(value, base, vmin);
      if value < vminOverBase {
        StoppedRefuses(text, base, -vmin, i, -vmin);
        assert StoppedBelow(text, base, vmin, i, vmin);
        return false, vmin;
      }
      value := value * base;
      if value < vmin + digit {
        StoppedRefuses(text, base, -vmin, i, -vmin);
        assert StoppedBelow(text, base, vmin, i, vmin);
        return false, vmin;
      }
      value := value - digit;
    }
    assert text[..|text|] == text;
    ok := true;
  }

  /** The precomputed quotient tells exactly whether one more multiplication stays in range. */
  lemma {:induction false} BelowBase(value: int, base: nat, vmin: int)
    requires base >= 1 && vmin < 0 && vmin <= value <= 0
    ensures value < TruncatedDiv(vmin, base) ==> value * base < vmin
    ensures value >= TruncatedDiv(vmin, base) ==> value * base >= vmin
    ensures value * base == -(-value * base)
  {
    if value < TruncatedDiv(vmin, base) {
      OverBase(-value, base, -vmin);
    } else {
      UnderBase(-value, base, -vmin);
    }
  }

  lemma {:induction false} NoPositiveRemainder(a: int, b: nat)
    requires a < 0 && b > 0
    ensures TruncatedMod(a, b) <= 0
  {
    var q := -a / b;
    assert q * b <= -a;
    assert -q * b == -(q * b);
  }

  // ----- Sign, base and the integers themselves

  // Digits left to read, their base, and the sign before them.
  datatype Number = Number(digits: string, base: nat, negative: bool)

  predicate HexPrefix(s: string) {
    |s| >= 2 && s[0] == '0' && (s[1] == 'x' || s[1] == 'X')
  }

  /** What follows the sign, if there is one. */
  function Unsigned(s: string): string {
    if s != "" && (s[0] == '-' || s[0] == '+') then s[1..] else s
  }

  /** Consume space, sign and a prefix that goes with `base`; 0 asks for the base to be found out. */
  function ParseSignAndBase(text: string, base: nat): Option<Number> {
    var s := Strip(text);
    if s == "" then None
    else
      var negative := s[0] == '-';
      var t := Unsigned(s);
      if t == "" then None
      else if base == 0 then
        if HexPrefix(t) then if t[2..] == "" then None else Some(Number(t[2..], 16, negative))
        else if t[0] == '0' then Some(Number(t[1..], 8, negative))
        else Some(Number(t, 10, negative))
      else if base == 16 then
        if HexPrefix(t) then if t[2..] == "" then None else Some(Number(t[2..], 16, negative))
        else Some(Number(t, 16, negative))
      else if 2 <= base <= 36 then Some(Number(t, base, negative))
      else None
  }

  /** The integer a text stands for in `base`, before any question of width. */
  function Denoted(text: string, base: nat): Option<int> {
    match ParseSignAndBase(text, base)
    case None => None
    case Some(number) =>
      if !AllDigits(number.digits, number.base) then None
      else
        var m: int := Magnitude(number.digits, number.base);
        Some(if number.negative then -m else m)
  }

  // An integer type: its least and greatest values.
  datatype Width = Width(min: int, max: int)

  predicate ValidWidth(w: Width) {
    (w.min == 0 || w.min <= -36) && 36 <= w.max
  }

  const INT16 := Width(-0x8000, 0x7fff)
  const UINT16 := Width(0, 0xffff)
  const INT32 := Width(-0x8000_0000, 0x7fff_ffff)
  const UINT32 := Width(0, 0xffff_ffff)
  const INT64 := Width(-0x8000_0000_0000_0000, 0x7fff_ffff_ffff_ffff)
  const UINT64 := Width(0, 0xffff_ffff_ffff_ffff)

  /** The widths are those of two's complement. */
  lemma WidthsAre()
    ensures INT16 == Width(-32_768, 32_767) && UINT16 == Width(0, 65_535)
    ensures INT32 == Width(-2_147_483_648, 2_147_483_647) && UINT32 == Width(0, 4_294_967_295)
    ensures INT64 == Width(-9_223_372_036_854_775_808, 9_223_372_036_854_775_807)
    ensures UINT64 == Width(0, 18_446_744_073_709_551_615)
  {
  }

  /** Is the text refused by an unsigned type on sight of its sign? */
  predicate SignRefused(text: string, base: nat, w: Width) {
    w.min == 0 && ParseSignAndBase(text, base).Some? && ParseSignAndBase(text, base).value.negative
  }

  /** safe_strtoi_base for one width. */
  method SafeStrToInt(text: string, base: nat, w: Width) returns (ok: bool, value: int)
    requires ValidWidth(w)
    ensures ok <==> Denoted(text, base).Some? && w.min <= Denoted(text, base).value <= w.max && !SignRefused(text, base, w)
    ensures ok ==> value == Denoted(text, base).value
    ensures w.min <= value <= w.max
  {
    hide AllDigits, Magnitude;
    value := 0;
    var number := ParseSignAndBase(text, base);
    if number.None? {
      return false, value;
    }
    var Number(digits, b, negative) := number.value;
    if w.min == 0 && negative {
      return false, value;
    }
    if !negative {
      ok, value := SafeParsePositiveInt(digits, b, w.max);
    } else {
      ok, value := SafeParseNegativeInt(digits, b, w.min);
    }
  }

  /** A hex prefix asks for base 16; anything else is decimal, a first digit 0 included. */
  function NumericBase(text: string): nat {
    if text == "" then 0
    else if HexPrefix(Unsigned(text)) then 16
    else 10
  }

  /** The integer a flag value stands for. */
  function FlagInteger(text: string): Option<int> {
    Denoted(Strip(text), NumericBase(Strip(text)))
  }

  predicate FlagNegative(text: string) {
    Strip(text) != "" && Strip(text)[0] == '-'
  }

  /** Exactly the texts that stand for a value of the width, unsigned ones without a minus sign. */
  function ParseInteger(text: string, w: Width): Option<int> {
    var v := FlagInteger(text);
    if v.Some? && w.min <= v.value <= w.max && !(w.min == 0 && FlagNegative(text)) then v else None
  }

  lemma {:induction false} StripTwice(s: string)
    ensures Strip(Strip(s)) == Strip(s)
  {
    var left, right := StripSplits(s);
    StripPads("", Strip(s), "");
    assert "" + Strip(s) + "" == Strip(s);
  }

  /** For the integer types the conversion routines exist for. */
  method ParseFlagImpl(text0: string, w: Width) returns (ok: bool, value: int)
    requires w in [INT32, UINT32, INT64, UINT64]
    ensures if ok then ParseInteger(text0, w) == Some(value) else ParseInteger(text0, w) == None
    ensures w.min <= value <= w.max
  {
    StripTwice(text0);
    var text := Strip(text0);
    ok, value := SafeStrToInt(text, NumericBase(text), w);
    hide Strip;
  }

  /** A two's complement cast to 16 bits, signed or not. */
  function Cast16(v: int, w: Width): int {
    (v - w.min) % 0x1_0000 + w.min
  }

  lemma CastChanges(v: int, w: Width)
    requires w.max == w.min + 0xffff
    ensures Cast16(v, w) == v <==> w.min <= v <= w.max
  {
  }

  /** The 16-bit parsers go by way of 32 bits, and refuse what the cast back changes. */
  method ParseFlag16(text: string, wide: Width, w: Width) returns (ok: bool, value: int)
    requires (wide == INT32 && w == INT16) || (wide == UINT32 && w == UINT16)
    ensures if ok then ParseInteger(text, w) == Some(value) else ParseInteger(text, w) == None
  {
    var val;
    ok, val := ParseFlagImpl(text, wide);
    hide FlagInteger, FlagNegative, Cast16;
    CastChanges(val, w);
    if !ok {
      return false, 0;
    }
    if Cast16(val, w) != val {
      return false, 0;
    }
    value := Cast16(val, w);
  }

  // ----- What texts are accepted

  predicate Sign(sign: string) {
    sign == "" || sign == "+" || sign == "-"
  }

  predicate Prefix(prefix: string) {
    prefix == "" || prefix == "0x" || prefix == "0X"
  }

  /** Space, sign, prefix, at least one digit, space: and nothing else is an integer. */
  ghost predicate Literal(text: string, left: string, sign: string, prefix: string, digits: string, right: string) {
    && text == left + (sign + (prefix + digits)) + right
    && AllSpace(left) && AllSpace(right) && Sign(sign) && Prefix(prefix)
    && digits != "" && AllDigits(digits, BaseOf(prefix))
  }

  function Signed(sign: string, m: int): int {
    if sign == "-" then -m else m
  }

  function LiteralValue(sign: string, prefix: string, digits: string): int {
    Signed(sign, Magnitude(digits, BaseOf(prefix)))
  }

  lemma DigitIsNoSpace(c: char)
    requires DigitOf(c) < 36
    ensures !IsSpace(c) && c != '-' && c != '+'
  {
  }

  /** A literal, without its padding. */
  lemma {:induction false} LiteralTrimmed(sign: string, prefix: string, digits: string)
    requires Sign(sign) && Prefix(prefix) && digits != "" && AllDigits(digits, BaseOf(prefix))
    ensures Trimmed(sign + (prefix + digits))
  {
    DigitIsNoSpace(digits[0]);
    DigitIsNoSpace(digits[|digits| - 1]);
  }

  function BaseOf(prefix: string): nat {
    if prefix == "" then 10 else 16
  }

  /** After the sign, a hex prefix is there exactly if one was written. */
  lemma {:induction false} PrefixSeen(prefix: string, digits: string)
    requires Prefix(prefix) && digits != "" && AllDigits(digits, BaseOf(prefix))
    ensures HexPrefix(prefix + digits) <==> prefix != ""
    ensures (prefix + digits)[|prefix|..] == digits && (prefix + digits)[0] != '-' && (prefix + digits)[0] != '+'
  {
    var t := prefix + digits;
    DigitIsNoSpace(digits[0]);
    if prefix == "" {
      assert t == digits;
      if |t| >= 2 {
        assert DigitOf(digits[1]) < 10;
      }
    }
  }

  lemma {:induction false} SignSeen(sign: string, t: string)
    requires Sign(sign) && t != "" && t[0] != '-' && t[0] != '+'
    ensures sign + t != "" && ((sign + t)[0] == '-' <==> sign == "-") && Unsigned(sign + t) == t
  {
    if sign == "" {
      assert sign + t == t;
    }
  }

  lemma {:induction false} StripTrimmed(s: string)
    requires Trimmed(s)
    ensures Strip(s) == s
  {
    StripPads("", s, "");
    assert "" + s + "" == s;
  }

  /** A trimmed text is read by what follows its sign. */
  lemma {:induction false} UnsignedReads(s: string, t: string, base: nat, digits: string)
    requires s != "" && Strip(s) == s && Unsigned(s) == t && t != ""
    requires base == (if HexPrefix(t) then 16 else 10) && digits != ""
    requires digits == if HexPrefix(t) then t[2..] else t
    ensures NumericBase(s) == base
    ensures ParseSignAndBase(s, base) == Some(Number(digits, base, s[0] == '-'))
  {
    hide Strip, Unsigned;
  }

  lemma {:induction false} LiteralReads(sign: string, prefix: string, digits: string)
    requires Sign(sign) && Prefix(prefix) && digits != "" && AllDigits(digits, BaseOf(prefix))
    ensures Strip(sign + (prefix + digits)) == sign + (prefix + digits)
    ensures NumericBase(sign + (prefix + digits)) == BaseOf(prefix)
    ensures ParseSignAndBase(sign + (prefix + digits), BaseOf(prefix))
         == Some(Number(digits, BaseOf(prefix), sign == "-"))
  {
    var t := prefix + digits;
    PrefixSeen(prefix, digits);
    LiteralTrimmed(sign, prefix, digits);
    hide Strip, AllDigits, Trimmed, NumericBase, ParseSignAndBase, Unsigned, HexPrefix;
    StripTrimmed(sign + t);
    SignSeen(sign, t);
    UnsignedReads(sign + t, t, BaseOf(prefix), digits);
  }

  /** Every literal is read as its value. */
  lemma {:induction false} LiteralDenotes(text: string, left: string, sign: string, prefix: string,
                                              digits: string, right: string)
    requires Literal(text, left, sign, prefix, digits, right)
    ensures FlagInteger(text) == Some(LiteralValue(sign, prefix, digits))
    ensures FlagNegative(text) <==> sign == "-"
  {
    hide AllDigits, Magnitude, ParseSignAndBase, NumericBase, Trimmed, Strip, HexPrefix, Unsigned, AllSpace;
    var s := sign + (prefix + digits);
    LiteralTrimmed(sign, prefix, digits);
    StripPads(left, s, right);
    LiteralReads(sign, prefix, digits);
    PrefixSeen(prefix, digits);
    SignSeen(sign, prefix + digits);
  }

  /** Sign, prefix and the rest of an unpadded text. */
  lemma {:induction false} Pieces(s: string) returns (sign: string, prefix: string, digits: string)
    requires s != "" && Unsigned(s) != ""
    ensures s == sign + (prefix + digits) && Sign(sign) && Prefix(prefix)
    ensures if HexPrefix(Unsigned(s)) then prefix != "" && digits == Unsigned(s)[2..]
            else prefix == "" && digits == Unsigned(s)
  {
    sign := if s[0] == '-' || s[0] == '+' then s[..1] else "";
    var t := Unsigned(s);
    assert s == sign + t;
    prefix := if HexPrefix(t) then t[..2] else "";
    digits := t[|prefix|..];
    assert t == prefix + digits;
  }

  /** An unpadded text that denotes an integer has digits, and they are of the base its prefix says. */
  lemma {:induction false} DenotedDigits(s: string)
    requires Strip(s) == s && Denoted(s, NumericBase(s)).Some?
    ensures s != "" && Unsigned(s) != ""
    ensures HexPrefix(Unsigned(s)) ==> Unsigned(s)[2..] != "" && AllDigits(Unsigned(s)[2..], 16)
    ensures !HexPrefix(Unsigned(s)) ==> AllDigits(Unsigned(s), 10)
  {
    hide Strip, Unsigned, HexPrefix, AllDigits, Magnitude;
    if s != "" && HexPrefix(Unsigned(s)) {
      assert NumericBase(s) == 16;
    }
  }

  /** Whatever is read as an integer is a literal. */
  lemma {:induction false} DenotedIsLiteral(text: string)
    returns (left: string, sign: string, prefix: string, digits: string, right: string)
    requires FlagInteger(text).Some?
    ensures Literal(text, left, sign, prefix, digits, right)
  {
    hide Strip, Denoted, NumericBase, HexPrefix, Unsigned, AllDigits;
    left, right := StripSplits(text);
    StripTwice(text);
    DenotedDigits(Strip(text));
    sign, prefix, digits := Pieces(Strip(text));
  }

  /**
   * Integer flags are exact: a text is accepted for a width with value v just when it is a literal
   * of value v, v fits, and an unsigned width is given no minus sign.
   */
  lemma {:induction false} IntegersExact(text: string, w: Width, v: int)
    ensures ParseInteger(text, w) == Some(v)
       <==> w.min <= v <= w.max
            && exists left, sign, prefix, digits, right ::
                 Literal(text, left, sign, prefix, digits, right) && LiteralValue(sign, prefix, digits) == v
                 && (w.min == 0 ==> sign != "-")
  {
    hide FlagInteger, FlagNegative, Literal, LiteralValue;
    if FlagInteger(text).Some? {
      var left, sign, prefix, digits, right := DenotedIsLiteral(text);
      LiteralDenotes(text, left, sign, prefix, digits, right);
    }
    forall left, sign, prefix, digits, right | Literal(text, left, sign, prefix, digits, right)
      ensures FlagInteger(text) == Some(LiteralValue(sign, prefix, digits)) && (FlagNegative(text) <==> sign == "-")
    {
      LiteralDenotes(text, left, sign, prefix, digits, right);
    }
  }

  /** One hexadecimal digit, behind either prefix and in either case. */
  lemma {:induction false} HexDigitReads(prefix: string, c: char, d: nat)
    requires (prefix == "0x" || prefix == "0X") && d < 16 && (c == "0123456789abcdef"[d] || c == "0123456789ABCDEF"[d])
    ensures ParseInteger(prefix + [c], INT32) == Some(d)
  {
    DigitWritten(d);
    assert DigitOf(c) == d;
    assert Magnitude([c], 16) == d by {
      assert [c][..0] == "";
    }
    hide FlagInteger, FlagNegative, Magnitude, DigitOf;
    assert "" + (prefix + [c]) == prefix + [c];
    assert Literal(prefix + [c], "", "", prefix, [c], "");
    LiteralDenotes(prefix + [c], "", "", prefix, [c], "");
  }

  // ----- The conversion routine in any base

  /** May digits of base b stand behind the prefix where `base` is asked for? A zero alone is octal. */
  predicate Allowed(base: nat, prefix: string, digits: string, b: nat) {
    if base == 0 then
      || ((prefix == "0x" || prefix == "0X") && b == 16 && digits != "")
      || (prefix == "0" && b == 8)
      || (prefix == "" && b == 10 && digits != "" && digits[0] != '0')
    else if base == 16 then b == 16 && Prefix(prefix) && digits != ""
    else b == base && 2 <= base <= 36 && prefix == "" && digits != ""
  }

  /** Space, sign, and digits of base b behind a prefix that goes with the base asked for. */
  ghost predicate Numeral(text: string, base: nat, left: string, number: Number, prefix: string, sign: string, right: string) {
    && text == left + (sign + (prefix + number.digits)) + right
    && AllSpace(left) && AllSpace(right) && Sign(sign) && (number.negative <==> sign == "-")
    && Allowed(base, prefix, number.digits, number.base) && AllDigits(number.digits, number.base)
  }

  lemma PrefixKinds(base: nat, prefix: string, digits: string, b: nat)
    requires Allowed(base, prefix, digits, b)
    ensures prefix == "" || prefix == "0" || prefix == "0x" || prefix == "0X"
    ensures b <= 36 && (digits == "" ==> prefix == "0") && (prefix == "0" ==> b == 8 && base == 0)
    ensures base == 0 && prefix == "" ==> digits[0] != '0'
    ensures base == 0 && prefix == "" ==> b == 10
    ensures base == 16 ==> b == 16
  {
  }

  /** Neither end of a prefix with its digits is space or a sign. */
  lemma {:induction false} BodyEnds(prefix: string, digits: string, b: nat)
    requires prefix == "" || prefix == "0" || prefix == "0x" || prefix == "0X"
    requires b <= 36 && (digits == "" ==> prefix == "0") && AllDigits(digits, b)
    ensures var t := prefix + digits;
            t != "" && t[0] != '-' && t[0] != '+' && !IsSpace(t[0]) && !IsSpace(t[|t| - 1]) && t[|prefix|..] == digits
  {
    var t := prefix + digits;
    if digits != "" {
      DigitIsNoSpace(digits[0]);
      DigitIsNoSpace(digits[|digits| - 1]);
      assert t[|t| - 1] == digits[|digits| - 1];
    }
    if prefix == "" {
      assert t == digits;
    } else {
      assert t[0] == '0';
    }
  }

  /** Digits that cannot be an x do not look like a hex prefix. */
  lemma {:induction false} NoHexPrefix(digits: string, b: nat)
    requires b <= 16 && AllDigits(digits, b)
    ensures !HexPrefix(digits) && !HexPrefix("0" + digits)
  {
    if |digits| >= 2 {
      assert DigitOf(digits[1]) < b;
    }
    if digits != "" {
      assert DigitOf(digits[0]) < b && ("0" + digits)[1] == digits[0];
    }
  }

  /** The prefix is seen for what it is. */
  lemma {:induction false} BodySeen(base: nat, prefix: string, digits: string, b: nat)
    requires Allowed(base, prefix, digits, b) && AllDigits(digits, b)
    ensures var t := prefix + digits;
            && t != "" && t[0] != '-' && t[0] != '+' && !IsSpace(t[0]) && !IsSpace(t[|t| - 1])
            && t[|prefix|..] == digits
            && (base == 0 || base == 16 ==> (HexPrefix(t) <==> prefix == "0x" || prefix == "0X"))
            && (base == 0 && !HexPrefix(t) ==> (t[0] == '0' <==> prefix == "0"))
  {
    PrefixKinds(base, prefix, digits, b);
    hide Allowed, IsSpace, AllDigits;
    BodyEnds(prefix, digits, b);
    if base == 0 || base == 16 {
      if prefix == "" {
        assert prefix + digits == digits;
        NoHexPrefix(digits, b);
      } else if prefix == "0" {
        NoHexPrefix(digits, b);
      }
    }
  }

  lemma {:induction false} NumberRead(base: nat, s: string, prefix: string, digits: string, b: nat)
    requires s != "" && Strip(s) == s && Unsigned(s) == prefix + digits
    requires Allowed(base, prefix, digits, b) && AllDigits(digits, b)
    ensures ParseSignAndBase(s, base) == Some(Number(digits, b, s[0] == '-'))
  {
    BodySeen(base, prefix, digits, b);
    hide Strip, Unsigned, HexPrefix, AllDigits;
  }

  /** Every numeral is read as its number. */
  lemma {:induction false} NumeralReads(text: string, base: nat, left: string, number: Number, prefix: string,
                                        sign: string, right: string)
    requires Numeral(text, base, left, number, prefix, sign, right)
    ensures ParseSignAndBase(text, base) == Some(number)
  {
    var body := prefix + number.digits;
    var s := sign + body;
    BodySeen(base, prefix, number.digits, number.base);
    SignSeen(sign, body);
    assert Trimmed(s);
    hide ParseSignAndBase, Strip, AllDigits, Allowed, Unsigned, HexPrefix, Trimmed;
    StripPads(left, s, right);
    StripTrimmed(s);
    NumberRead(base, s, prefix, number.digits, number.base);
    SameStripped(text, s, base);
  }

  lemma SameStripped(a: string, b: string, base: nat)
    requires Strip(a) == Strip(b)
    ensures ParseSignAndBase(a, base) == ParseSignAndBase(b, base)
  {
  }

  /** What is read as a number is a numeral, if its digits are digits. */
  lemma {:induction false} ReadIsNumeral(text: string, base: nat, number: Number)
    returns (left: string, prefix: string, sign: string, right: string)
    requires ParseSignAndBase(text, base) == Some(number) && AllDigits(number.digits, number.base)
    ensures Numeral(text, base, left, number, prefix, sign, right)
  {
    var s := Strip(text);
    StripTwice(text);
    SameStripped(text, s, base);
    left, right := StripSplits(text);
    hide ParseSignAndBase, Strip, AllDigits, AllSpace, Allowed, Trimmed;
    prefix := PrefixTaken(s, base, number);
    sign := SignTaken(s);
  }

  lemma {:induction false} SignTaken(s: string) returns (sign: string)
    requires s != ""
    ensures Sign(sign) && s == sign + Unsigned(s) && (s[0] == '-' <==> sign == "-")
  {
    sign := if s[0] == '-' || s[0] == '+' then s[..1] else "";
  }

  lemma {:induction false} PrefixTaken(s: string, base: nat, number: Number) returns (prefix: string)
    requires Strip(s) == s && ParseSignAndBase(s, base) == Some(number)
    ensures s != "" && Unsigned(s) == prefix + number.digits
    ensures Allowed(base, prefix, number.digits, number.base) && (number.negative <==> s[0] == '-')
  {
    hide Strip, Unsigned;
    var t := Unsigned(s);
    prefix := if number.digits == t then "" else if number.base == 8 then t[..1] else t[..2];
    assert HexPrefix(t) ==> t[..2] == "0x" || t[..2] == "0X";
    assert t != "" && t[0] == '0' ==> t[..1] == "0";
  }

  /**
   * The conversion routine is exact in every base: it accepts just the numerals of a value that fits,
   * for an unsigned width those without a minus sign.
   */
  lemma {:induction false} ConversionExact(text: string, base: nat, w: Width, v: int)
    ensures Denoted(text, base) == Some(v) && w.min <= v <= w.max && !SignRefused(text, base, w)
       <==> w.min <= v <= w.max
            && exists left, number, prefix, sign, right ::
                 Numeral(text, base, left, number, prefix, sign, right) && (w.min == 0 ==> sign != "-")
                 && v == Signed(sign, Magnitude(number.digits, number.base))
  {
    hide ParseSignAndBase, Magnitude, AllDigits, Allowed, AllSpace;
    var read := ParseSignAndBase(text, base);
    if Denoted(text, base).Some? {
      var left, prefix, sign, right := ReadIsNumeral(text, base, read.value);
    }
    forall left, number, prefix, sign, right | Numeral(text, base, left, number, prefix, sign, right)
      ensures read == Some(number)
    {
      NumeralReads(text, base, left, number, prefix, sign, right);
    }
  }

  // ----- Printing integers

  function DigitChar(d: nat): char
    requires d < 10
  {
    ('0' as int + d) as char
  }

  function Decimal(n: nat): string {
    if n < 10 then [DigitChar(n)] else Decimal(n / 10) + [DigitChar(n % 10)]
  }

  function UnparseInteger(v: int): string {
    if v < 0 then "-" + Decimal(-v) else Decimal(v)
  }

  lemma {:induction false} DecimalReads(n: nat)
    ensures Decimal(n) != "" && AllDigits(Decimal(n), 10) && Magnitude(Decimal(n), 10) == n
  {
    var s := Decimal(n);
    if n < 10 {
      assert s[..0] == "";
    } else {
      DecimalReads(n / 10);
      assert s[..|s| - 1] == Decimal(n / 10);
    }
  }

  /** A print has decimal digits only, and no zero in front of others. */
  lemma {:induction false} DecimalPlain(n: nat)
    ensures forall i :: 0 <= i < |Decimal(n)| ==> '0' <= Decimal(n)[i] <= '9'
    ensures |Decimal(n)| > 1 ==> Decimal(n)[0] != '0'
    ensures n > 0 ==> Decimal(n)[0] != '0'
  {
    if n >= 10 {
      DecimalPlain(n / 10);
      DecimalReads(n / 10);
    }
  }

  lemma {:induction false} Bare(sign: string, digits: string)
    ensures "" + (sign + ("" + digits)) + "" == sign + digits
  {
    assert "" + digits == digits;
    assert "" + (sign + digits) == sign + digits;
  }

  /** Every value of every width is read back from its print. */
  lemma {:induction false} IntegerRoundTrip(v: int, w: Width)
    requires w.min <= v <= w.max
    ensures ParseInteger(UnparseInteger(v), w) == Some(v)
  {
    hide Decimal, FlagInteger, FlagNegative, Magnitude, AllDigits;
    var sign := if v < 0 then "-" else "";
    var digits := Decimal(if v < 0 then -v else v);
    DecimalReads(if v < 0 then -v else v);
    assert "" + digits == digits;
    assert UnparseInteger(v) == sign + digits;
    hide UnparseInteger;
    Bare(sign, digits);
    LiteralDenotes(sign + digits, "", sign, "", digits, "");
  }

  // ----- Booleans

  const TRUE_WORDS := ["1", "t", "true", "y", "yes"]
  const FALSE_WORDS := ["0", "f", "false", "n", "no"]

  function UnparseBool(v: bool): string {
    if v then "true" else "false"
  }

  ghost predicate SaysIn(text: string, words: seq<string>) {
    exists i :: 0 <= i < |words| && EqualsIgnoreCase(Strip(text), words[i])
  }

  /** The two word lists are tried side by side; no text is in both. */
  method ParseBool(text0: string) returns (ok: bool, value: bool)
    ensures ok <==> SaysIn(text0, TRUE_WORDS) || SaysIn(text0, FALSE_WORDS)
    ensures ok ==> (value <==> SaysIn(text0, TRUE_WORDS)) && (!value <==> SaysIn(text0, FALSE_WORDS))
  {
    var text := Strip(text0);
    value := false;
    WordsApart(text);
    for i := 0 to 5
      invariant forall k :: 0 <= k < i ==> !EqualsIgnoreCase(text, TRUE_WORDS[k]) && !EqualsIgnoreCase(text, FALSE_WORDS[k])
    {
      if EqualsIgnoreCase(text, TRUE_WORDS[i]) {
        return true, true;
      } else if EqualsIgnoreCase(text, FALSE_WORDS[i]) {
        return true, false;
      }
    }
    ok := false;
  }

  lemma {:induction false} WordsApart(text: string)
    ensures forall i, j :: 0 <= i < 5 && 0 <= j < 5 && EqualsIgnoreCase(text, TRUE_WORDS[i]) ==>
                             !EqualsIgnoreCase(text, FALSE_WORDS[j])
  {
    assert forall i :: 0 <= i < 5 && EqualsIgnoreCase(text, TRUE_WORDS[i]) ==> ToLower(text[0]) in "1ty";
    assert forall j :: 0 <= j < 5 && EqualsIgnoreCase(text, FALSE_WORDS[j]) ==> ToLower(text[0]) in "0fn";
  }

  /** The words, whatever their case and the space around them. */
  lemma {:induction false} BooleanWords(text: string)
    ensures var s := Strip(text);
            && (SaysIn(text, TRUE_WORDS) <==>
                  || EqualsIgnoreCase(s, "1") || EqualsIgnoreCase(s, "t") || EqualsIgnoreCase(s, "true")
                  || EqualsIgnoreCase(s, "y") || EqualsIgnoreCase(s, "yes"))
            && (SaysIn(text, FALSE_WORDS) <==>
                  || EqualsIgnoreCase(s, "0") || EqualsIgnoreCase(s, "f") || EqualsIgnoreCase(s, "false")
                  || EqualsIgnoreCase(s, "n") || EqualsIgnoreCase(s, "no"))
  {
    hide EqualsIgnoreCase, Strip;
    var s := Strip(text);
    assert EqualsIgnoreCase(s, "1") == EqualsIgnoreCase(s, TRUE_WORDS[0]);
    assert EqualsIgnoreCase(s, "t") == EqualsIgnoreCase(s, TRUE_WORDS[1]);
    assert EqualsIgnoreCase(s, "true") == EqualsIgnoreCase(s, TRUE_WORDS[2]);
    assert EqualsIgnoreCase(s, "y") == EqualsIgnoreCase(s, TRUE_WORDS[3]);
    assert EqualsIgnoreCase(s, "yes") == EqualsIgnoreCase(s, TRUE_WORDS[4]);
    assert EqualsIgnoreCase(s, "0") == EqualsIgnoreCase(s, FALSE_WORDS[0]);
    assert EqualsIgnoreCase(s, "f") == EqualsIgnoreCase(s, FALSE_WORDS[1]);
    assert EqualsIgnoreCase(s, "false") == EqualsIgnoreCase(s, FALSE_WORDS[2]);
    assert EqualsIgnoreCase(s, "n") == EqualsIgnoreCase(s, FALSE_WORDS[3]);
    assert EqualsIgnoreCase(s, "no") == EqualsIgnoreCase(s, FALSE_WORDS[4]);
    if SaysIn(text, TRUE_WORDS) {
      var i :| 0 <= i < 5 && EqualsIgnoreCase(s, TRUE_WORDS[i]);
      assert i == 0 || i == 1 || i == 2 || i == 3 || i == 4;
    }
    if SaysIn(text, FALSE_WORDS) {
      var i :| 0 <= i < 5 && EqualsIgnoreCase(s, FALSE_WORDS[i]);
      assert i == 0 || i == 1 || i == 2 || i == 3 || i == 4;
    }
  }

  /** The digits a boolean flag is given when it is named without a value. */
  lemma {:induction false} DigitsSay()
    ensures SaysIn("1", TRUE_WORDS) && !SaysIn("1", FALSE_WORDS)
    ensures SaysIn("0", FALSE_WORDS) && !SaysIn("0", TRUE_WORDS)
  {
    StripTrimmed("1");
    StripTrimmed("0");
    BooleanWords("1");
    BooleanWords("0");
  }

  lemma {:induction false} BoolRoundTrip(v: bool)
    ensures UnparseBool(v) == if v then "true" else "false"
    ensures SaysIn(UnparseBool(v), if v then TRUE_WORDS else FALSE_WORDS)
    ensures !SaysIn(UnparseBool(v), if v then FALSE_WORDS else TRUE_WORDS)
  {
    StripPads("", UnparseBool(v), "");
    assert "" + UnparseBool(v) + "" == UnparseBool(v);
    assert EqualsIgnoreCase("true", TRUE_WORDS[2]) && EqualsIgnoreCase("false", FALSE_WORDS[2]);
    WordsApart(UnparseBool(v));
  }

  // ----- Severities

  const INFO := 0
  const WARNING := 1
  const ERROR := 2
  const FATAL := 3

  function Normalize(v: int): int {
    if v < INFO then INFO else if v > FATAL then ERROR else v
  }

  function SeverityName(v: int): string {
    if v == INFO then "INFO"
    else if v == WARNING then "WARNING"
    else if v == ERROR then "ERROR"
    else if v == FATAL then "FATAL"
    else "UNKNOWN"
  }

  function UnparseSeverity(v: int): string {
    if v == Normalize(v) then SeverityName(v) else UnparseInteger(v)
  }

  /** DFATAL means ERROR in a build without assertions, FATAL in one with them. */
  function ParseSeverity(text0: string, ndebug: bool): Option<int> {
    var text := Strip(text0);
    if text == "" then None
    else if EqualsIgnoreCase(text, "dfatal") || EqualsIgnoreCase(text, "klogdebugfatal") then
      Some(if ndebug then ERROR else FATAL)
    else
      NamedOrNumber(if text[0] == 'k' || text[0] == 'K' then text[1..] else text)
  }

  function NamedOrNumber(text: string): Option<int> {
    if EqualsIgnoreCase(text, "info") then Some(INFO)
    else if EqualsIgnoreCase(text, "warning") then Some(WARNING)
    else if EqualsIgnoreCase(text, "error") then Some(ERROR)
    else if EqualsIgnoreCase(text, "fatal") then Some(FATAL)
    else ParseInteger(text, INT32)
  }

  /** The print of an integer has no padding and starts with no letter. */
  lemma {:induction false} PrintStarts(v: int)
    ensures UnparseInteger(v) != "" && Trimmed(UnparseInteger(v))
    ensures UnparseInteger(v)[0] == '-' || '0' <= UnparseInteger(v)[0] <= '9'
  {
    hide Decimal;
    var s := Decimal(if v < 0 then -v else v);
    DecimalReads(if v < 0 then -v else v);
    DecimalDigit(s[0]);
    DecimalDigit(s[|s| - 1]);
  }

  lemma DecimalDigit(c: char)
    requires DigitOf(c) < 10
    ensures '0' <= c <= '9'
  {
  }

  lemma NotAWord(text: string, word: string)
    requires text != "" && word != "" && (text[0] == '-' || '0' <= text[0] <= '9') && 'a' <= word[0] <= 'z'
    ensures !EqualsIgnoreCase(text, word)
  {
  }

  lemma DifferentStart(text: string, word: string)
    requires text != "" && word != "" && ToLower(text[0]) != ToLower(word[0])
    ensures !EqualsIgnoreCase(text, word)
  {
  }

  lemma {:induction false} NamedSeverity(v: int)
    requires 0 <= v <= 3
    ensures NamedOrNumber(SeverityName(v)) == Some(v)
  {
    hide ParseInteger, EqualsIgnoreCase;
    StandardWords();
    DifferentStart("FATAL", "error");
    DifferentLength("WARNING", "info");
    DifferentLength("ERROR", "info");
    DifferentLength("ERROR", "warning");
    DifferentLength("FATAL", "info");
    DifferentLength("FATAL", "warning");
  }

  lemma DifferentLength(text: string, word: string)
    requires |text| != |word|
    ensures !EqualsIgnoreCase(text, word)
  {
  }

  lemma StandardWords()
    ensures EqualsIgnoreCase("INFO", "info") && EqualsIgnoreCase("WARNING", "warning")
    ensures EqualsIgnoreCase("ERROR", "error") && EqualsIgnoreCase("FATAL", "fatal")
  {
  }

  lemma {:induction false} StandardSeverity(v: int, ndebug: bool)
    requires 0 <= v <= 3
    ensures ParseSeverity(SeverityName(v), ndebug) == Some(v)
  {
    hide Strip, ParseInteger, NamedOrNumber;
    StripTrimmed(SeverityName(v));
    NamedSeverity(v);
  }

  // ----- What texts are severities

  const SEVERITY_WORDS := ["info", "warning", "error", "fatal"]

  /** A standard name in any case, or a 32-bit integer. */
  predicate Reads(text: string, v: int) {
    || (0 <= v <= 3 && EqualsIgnoreCase(text, SEVERITY_WORDS[v]))
    || ParseInteger(text, INT32) == Some(v)
  }

  predicate IsDebugFatal(text: string) {
    EqualsIgnoreCase(text, "dfatal") || EqualsIgnoreCase(text, "klogdebugfatal")
  }

  predicate StartsWithLetter(text: string) {
    text != "" && 'a' <= ToLower(text[0]) <= 'z'
  }

  lemma {:induction false} FirstKept(text: string)
    requires text != "" && !IsSpace(text[0])
    ensures Strip(text) != "" && Strip(text)[0] == text[0]
  {
    StripTrailingKeeps(text);
  }

  lemma {:induction false} StripTrailingKeeps(text: string)
    requires text != "" && !IsSpace(text[0])
    ensures StripTrailing(text) != "" && StripTrailing(text)[0] == text[0]
  {
    if IsSpace(text[|text| - 1]) {
      StripTrailingKeeps(text[..|text| - 1]);
    }
  }

  /** What starts with a letter is no integer. */
  lemma {:induction false} LetterIsNoInteger(text: string)
    requires StartsWithLetter(text)
    ensures FlagInteger(text) == None
  {
    FirstKept(text);
    StripTwice(text);
    var s := Strip(text);
    hide Strip;
    assert Unsigned(s) == s && !HexPrefix(s);
    assert DigitOf(s[0]) >= 10;
    assert !AllDigits(s, 10);
  }

  lemma {:induction false} WordIsNoInteger(text: string, word: string)
    requires EqualsIgnoreCase(text, word) && word != "" && 'a' <= word[0] <= 'z'
    ensures ParseInteger(text, INT32) == None
  {
    hide FlagInteger;
    LetterIsNoInteger(text);
  }

  lemma {:induction false} EmptyIsNoInteger()
    ensures ParseInteger("", INT32) == None
  {
  }

  /** At most one of the words is said. */
  lemma {:induction false} OneWord(text: string, i: nat, j: nat)
    requires i < 4 && j < 4 && EqualsIgnoreCase(text, SEVERITY_WORDS[i]) && EqualsIgnoreCase(text, SEVERITY_WORDS[j])
    ensures i == j
  {
    var a, b := SEVERITY_WORDS[i], SEVERITY_WORDS[j];
    assert |a| == |b| && ToLower(text[0]) == a[0] == b[0];
  }

  lemma {:induction false} NamedOrNumberReads(text: string, v: int)
    ensures NamedOrNumber(text) == Some(v) <==> Reads(text, v)
  {
    hide EqualsIgnoreCase, ParseInteger;
    if i: nat :| i < 4 && EqualsIgnoreCase(text, SEVERITY_WORDS[i]) {
      WordIsNoInteger(text, SEVERITY_WORDS[i]);
      forall j: nat | j < 4 && EqualsIgnoreCase(text, SEVERITY_WORDS[j]) ensures j == i {
        OneWord(text, i, j);
      }
    }
    assert EqualsIgnoreCase(text, "info") == EqualsIgnoreCase(text, SEVERITY_WORDS[0]);
    assert EqualsIgnoreCase(text, "warning") == EqualsIgnoreCase(text, SEVERITY_WORDS[1]);
    assert EqualsIgnoreCase(text, "error") == EqualsIgnoreCase(text, SEVERITY_WORDS[2]);
    assert EqualsIgnoreCase(text, "fatal") == EqualsIgnoreCase(text, SEVERITY_WORDS[3]);
  }

  /** Nothing that starts with k or says DFATAL is a name or a number as it stands. */
  lemma {:induction false} NotAsItStands(text: string, v: int)
    requires IsDebugFatal(text) || (text != "" && ToLower(text[0]) == 'k')
    ensures !Reads(text, v)
  {
    hide FlagInteger;
    LetterIsNoInteger(text);
    if 0 <= v <= 3 {
      WordShape(text, v);
    }
  }

  lemma WordShape(text: string, v: int)
    requires 0 <= v <= 3
    ensures EqualsIgnoreCase(text, SEVERITY_WORDS[v]) ==>
              text != "" && ToLower(text[0]) == SEVERITY_WORDS[v][0] && |text| == |SEVERITY_WORDS[v]|
  {
  }

  lemma {:induction false} NotBehindK(text: string, v: int)
    requires EqualsIgnoreCase(text, "klogdebugfatal")
    ensures !Reads(text[1..], v)
  {
    hide FlagInteger;
    var rest := text[1..];
    assert ToLower(rest[0]) == ToLower(text[1]) == "klogdebugfatal"[1];
    LetterIsNoInteger(rest);
  }

  lemma DebugFatalStarts(text: string)
    requires EqualsIgnoreCase(text, "dfatal")
    ensures text != "" && ToLower(text[0]) != 'k'
  {
  }

  /**
   * Severities are exact: the debug-fatal words mean what the build says; any other text is a standard
   * name in any case or an integer, behind one k or K or as it stands.
   */
  lemma {:induction false} SeverityExact(text: string, ndebug: bool, v: int)
    ensures var s := Strip(text);
            ParseSeverity(text, ndebug) == Some(v) <==>
              || (IsDebugFatal(s) && v == if ndebug then ERROR else FATAL)
              || Reads(s, v)
              || (s != "" && ToLower(s[0]) == 'k' && Reads(s[1..], v))
  {
    hide Strip, EqualsIgnoreCase, ParseInteger, NamedOrNumber;
    var s := Strip(text);
    EmptyIsNoInteger();
    if s == "" {
      NamedOrNumberReads(s, v);
      EmptyIsNoWord(v);
    } else if IsDebugFatal(s) {
      NotAsItStands(s, v);
      if EqualsIgnoreCase(s, "klogdebugfatal") {
        NotBehindK(s, v);
      } else {
        DebugFatalStarts(s);
      }
    } else if ToLower(s[0]) == 'k' {
      NotAsItStands(s, v);
      NamedOrNumberReads(s[1..], v);
    } else {
      NamedOrNumberReads(s, v);
    }
  }

  /** The names in any case, alone or behind a k, mean 0 to 3; DFATAL is 2 or 3 by the build. */
  lemma {:induction false} SeverityNamesRead(text: string, ndebug: bool)
    ensures var s := Strip(text);
            var r := ParseSeverity(text, ndebug);
            && (EqualsIgnoreCase(s, "info") || EqualsIgnoreCase(s, "kinfo") ==> r == Some(0))
            && (EqualsIgnoreCase(s, "warning") || EqualsIgnoreCase(s, "kwarning") ==> r == Some(1))
            && (EqualsIgnoreCase(s, "error") || EqualsIgnoreCase(s, "kerror") ==> r == Some(2))
            && (EqualsIgnoreCase(s, "fatal") || EqualsIgnoreCase(s, "kfatal") ==> r == Some(3))
            && (EqualsIgnoreCase(s, "dfatal") || EqualsIgnoreCase(s, "klogdebugfatal") ==> r == Some(if ndebug then 2 else 3))
  {
    hide Strip, EqualsIgnoreCase, ParseSeverity, ParseInteger;
    var s := Strip(text);
    SeverityExact(text, ndebug, 0);
    SeverityExact(text, ndebug, 1);
    SeverityExact(text, ndebug, 2);
    SeverityExact(text, ndebug, 3);
    BehindK(s, "info");
    BehindK(s, "warning");
    BehindK(s, "error");
    BehindK(s, "fatal");
    assert "k" + "info" == "kinfo" && "k" + "warning" == "kwarning";
    assert "k" + "error" == "kerror" && "k" + "fatal" == "kfatal";
    assert SEVERITY_WORDS[0] == "info" && SEVERITY_WORDS[1] == "warning";
    assert SEVERITY_WORDS[2] == "error" && SEVERITY_WORDS[3] == "fatal";
  }

  lemma {:induction false} BehindK(s: string, word: string)
    ensures EqualsIgnoreCase(s, "k" + word) ==> s != "" && ToLower(s[0]) == 'k' && EqualsIgnoreCase(s[1..], word)
  {
    assert ("k" + word)[1..] == word;
    if EqualsIgnoreCase(s, "k" + word) {
      assert ToLower(s[0]) == ToLower(("k" + word)[0]);
      forall i | 0 <= i < |word| ensures ToLower(s[1..][i]) == ToLower(word[i]) {
        assert ToLower(s[i + 1]) == ToLower(("k" + word)[i + 1]);
      }
    }
  }

  /** The standard severities print as their names, any other as its number. */
  lemma SeverityPrints(v: int)
    ensures UnparseSeverity(0) == "INFO" && UnparseSeverity(1) == "WARNING"
    ensures UnparseSeverity(2) == "ERROR" && UnparseSeverity(3) == "FATAL"
    ensures v < 0 || v > 3 ==> UnparseSeverity(v) == UnparseInteger(v)
  {
  }

  lemma EmptyIsNoWord(v: int)
    ensures !IsDebugFatal("") && (0 <= v <= 3 ==> !EqualsIgnoreCase("", SEVERITY_WORDS[v]))
  {
  }

  /** Every severity, standard or not, is read back from its print. */
  lemma {:induction false} SeverityRoundTrip(v: int, ndebug: bool)
    requires INT32.min <= v <= INT32.max
    ensures ParseSeverity(UnparseSeverity(v), ndebug) == Some(v)
  {
    if v == Normalize(v) {
      StandardSeverity(v, ndebug);
    } else {
      var text := UnparseInteger(v);
      hide Strip, EqualsIgnoreCase, ParseInteger, UnparseInteger;
      PrintStarts(v);
      StripTrimmed(text);
      NotAWord(text, "dfatal");
      NotAWord(text, "klogdebugfatal");
      NotAWord(text, "info");
      NotAWord(text, "warning");
      NotAWord(text, "error");
      NotAWord(text, "fatal");
      IntegerRoundTrip(v, INT32);
    }
  }

  // ----- Vectors of strings

  /** The pieces between commas, empty ones too. */
  function SplitCommas(text: string): (r: seq<string>)
    ensures |r| >= 1
  {
    if text == "" then [""]
    else
      var rest := SplitCommas(text[1..]);
      if text[0] == ',' then [""] + rest else [[text[0]] + rest[0]] + rest[1..]
  }

  function JoinCommas(v: seq<string>): string {
    if v == [] then ""
    else if |v| == 1 then v[0]
    else v[0] + "," + JoinCommas(v[1..])
  }

  /** An empty text is the empty vector, not a vector of one empty string. */
  function ParseStrings(text: string): seq<string> {
    if text == "" then [] else SplitCommas(text)
  }

  ghost predicate NoCommas(v: seq<string>) {
    forall i :: 0 <= i < |v| ==> ',' !in v[i]
  }

  lemma {:induction false} SplitHasNoCommas(text: string)
    ensures NoCommas(SplitCommas(text))
  {
    if text != "" {
      SplitHasNoCommas(text[1..]);
    }
  }

  lemma {:induction false} JoinSplit(text: string)
    ensures JoinCommas(SplitCommas(text)) == text
  {
    if text != "" {
      var rest := SplitCommas(text[1..]);
      JoinSplit(text[1..]);
      assert text == [text[0]] + text[1..];
      if text[0] == ',' {
        assert ([""] + rest)[1..] == rest;
        assert "" + "," + text[1..] == text;
      } else {
        var r := [[text[0]] + rest[0]] + rest[1..];
        if |rest| > 1 {
          assert r[1..] == rest[1..];
          Associate([text[0]], rest[0], "," + JoinCommas(rest[1..]));
          Associate([text[0]] + rest[0], ",", JoinCommas(rest[1..]));
          Associate(rest[0], ",", JoinCommas(rest[1..]));
        }
      }
    }
  }

  lemma Associate(a: string, b: string, c: string)
    ensures (a + b) + c == a + (b + c)
  {
  }

  /** A piece without commas in front of a comma is split off whole. */
  lemma {:induction false} SplitPiece(piece: string, tail: string)
    requires ',' !in piece
    ensures SplitCommas(piece) == [piece]
    ensures SplitCommas(piece + "," + tail) == [piece] + SplitCommas(tail)
  {
    var text := piece + "," + tail;
    if piece == "" {
      assert text[1..] == tail;
    } else {
      assert text[1..] == piece[1..] + "," + tail;
      SplitPiece(piece[1..], tail);
      assert piece == [piece[0]] + piece[1..];
      assert ([piece[1..]] + SplitCommas(tail))[1..] == SplitCommas(tail);
    }
  }

  lemma {:induction false} SplitJoin(v: seq<string>)
    requires v != [] && NoCommas(v)
    ensures SplitCommas(JoinCommas(v)) == v
  {
    if |v| == 1 {
      SplitPiece(v[0], "");
    } else {
      SplitJoin(v[1..]);
      SplitPiece(v[0], JoinCommas(v[1..]));
    }
  }

  /** Whatever text a vector flag is given, it prints as that text. */
  lemma {:induction false} StringsPrintAsGiven(text: string)
    ensures JoinCommas(ParseStrings(text)) == text
  {
    JoinSplit(text);
  }

  /** A vector survives printing and parsing exactly if no element has a comma and it is not the one empty string. */
  lemma {:induction false} StringsRoundTrip(v: seq<string>)
    ensures ParseStrings(JoinCommas(v)) == v <==> NoCommas(v) && v != [""]
  {
    var text := JoinCommas(v);
    SplitHasNoCommas(text);
    JoinSplit(text);
    if v != [] && NoCommas(v) {
      SplitJoin(v);
    }
    EmptyJoin(v);
  }

  // ----- Optional values

  function ParseOptional<T>(text: string, parse: string -> Option<T>): Option<Option<T>> {
    if text == "" then Some(None)
    else match parse(text)
      case None => None
      case Some(value) => Some(Some(value))
  }

  function UnparseOptional<T>(v: Option<T>, unparse: T -> string): string {
    if v.Some? then unparse(v.value) else ""
  }

  /** An optional survives exactly if it is null, or its value survives and prints as something. */
  lemma OptionalRoundTrip<T>(v: Option<T>, parse: string -> Option<T>, unparse: T -> string)
    ensures ParseOptional(UnparseOptional(v, unparse), parse) == Some(v)
       <==> v.None? || (unparse(v.value) != "" && parse(unparse(v.value)) == Some(v.value))
  {
  }

  /** An optional integer always survives. */
  lemma {:induction false} OptionalIntegerRoundTrip(v: Option<int>, w: Width)
    requires v.Some? ==> w.min <= v.value <= w.max
    ensures ParseOptional(UnparseOptional(v, UnparseInteger), text => ParseInteger(text, w)) == Some(v)
  {
    if v.Some? {
      IntegerRoundTrip(v.value, w);
      PrintStarts(v.value);
    }
  }

  /** An optional vector survives exactly if it is null, or not empty and its vector survives. */
  lemma {:induction false} OptionalStringsRoundTrip(v: Option<seq<string>>)
    ensures ParseOptional(UnparseOptional(v, JoinCommas), text => Some(ParseStrings(text))) == Some(v)
       <==> v.None? || (v.value != [] && v.value != [""] && NoCommas(v.value))
  {
    if v.Some? {
      StringsRoundTrip(v.value);
      StringsPrintAsGiven(JoinCommas(v.value));
      if JoinCommas(v.value) == "" {
        EmptyJoin(v.value);
      }
    }
  }

  lemma {:induction false} EmptyJoin(v: seq<string>)
    ensures JoinCommas(v) == "" <==> v == [] || v == [""]
  {
    if |v| > 1 {
      assert |JoinCommas(v)| == |v[0]| + 1 + |JoinCommas(v[1..])|;
    }
  }
}
