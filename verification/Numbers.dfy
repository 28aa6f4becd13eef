/** Character classes over seven-bit ASCII, as the class table in `ctype.c` gives them. */
module Ctype {

  predicate IsAscii(c: char)
  {
    c as int < 128
  }

  predicate IsDigit(c: char) { '0' <= c <= '9' }

  predicate IsUpper(c: char) { 'A' <= c <= 'Z' }

  predicate IsLower(c: char) { 'a' <= c <= 'z' }

  predicate IsAlpha(c: char) { IsUpper(c) || IsLower(c) }

  predicate IsHexDigit(c: char) { IsDigit(c) || 'A' <= c <= 'F' || 'a' <= c <= 'f' }

  predicate IsSpace(c: char) { c == ' ' || 9 <= c as int <= 13 }

  /** The same character, or the same letter once as a capital and once not. */
  ghost predicate SameLetter(a: char, b: char)
  {
    || a == b
    || ('A' <= a <= 'Z' && b as int == a as int + 32)
    || ('A' <= b <= 'Z' && a as int == b as int + 32)
  }

  /** A C string: its characters before the terminator, which is none of them. */
  predicate IsCString(s: string)
  {
    forall i :: 0 <= i < |s| ==> IsAscii(s[i]) && s[i] != '\0'
  }

  lemma NoTerminator(s: string)
    requires IsCString(s)
    ensures '\0' !in s
  {
  }

  /** The character a C program reads at `i`: past the last one lies the terminator. */
  function CharAt(s: string, i: nat): char
  {
    if i < |s| then s[i] else '\0'
  }
}

/** `strtol`, `utoa` and `itoa`. */
module Numbers {
  import opened Ctype

  const LONG_MAX: int := 0x7FFF_FFFF_FFFF_FFFF
  const LONG_MIN: int := -0x8000_0000_0000_0000
  const UINT_MODULUS: int := 0x1_0000_0000

  // ---------------------------------------------------------------- digits and their values

  /** The value of a digit or letter, and 36 for anything else, which no base reaches. */
  function Ordinal(c: char): (r: nat)
    ensures r <= 36
  {
    if IsDigit(c) then c as int - '0' as int
    else if IsUpper(c) then c as int - 'A' as int + 10
    else if IsLower(c) then c as int - 'a' as int + 10
    else 36
  }

  predicate AllDigits(s: string, base: nat)
  {
    forall i :: 0 <= i < |s| ==> Ordinal(s[i]) < base
  }

  /** The number a run of digits denotes. */
  function Value(s: string, base: nat): nat
  {
    if |s| == 0 then 0 else Value(s[..|s| - 1], base) * base + Ordinal(s[|s| - 1])
  }

  lemma ValueSnoc(s: string, c: char, base: nat)
    ensures Value(s + [c], base) == Value(s, base) * base + Ordinal(c)
  {
    assert (s + [c])[..|s|] == s;
  }

  lemma TimesGrows(v: nat, base: nat)
    requires 1 <= base
    ensures v <= v * base
  {
    assert v * base == v + v * (base - 1);
  }

  // ---------------------------------------------------------------- what strtol should return

  function SpacesFrom(s: string, i: nat): (e: nat)
    requires i <= |s|
    ensures i <= e <= |s| && (forall k :: i <= k < e ==> IsSpace(s[k])) && !IsSpace(CharAt(s, e))
    decreases |s| - i
  {
    if i < |s| && IsSpace(s[i]) then SpacesFrom(s, i + 1) else i
  }

  function RunEnd(s: string, i: nat, base: nat): (e: nat)
    requires i <= |s| && base <= 36
    ensures i <= e <= |s| && AllDigits(s[i..e], base) && !(Ordinal(CharAt(s, e)) < base)
    decreases |s| - i
  {
    if i < |s| && Ordinal(s[i]) < base then
      var e := RunEnd(s, i + 1, base);
      assert s[i..e] == [s[i]] + s[i + 1..e];
      e
    else i
  }

  predicate HasHexPrefix(s: string, i: nat)
  {
    && CharAt(s, i) == '0' && (CharAt(s, i + 1) == 'x' || CharAt(s, i + 1) == 'X')
    && IsHexDigit(CharAt(s, i + 2))
  }

  /** What comes before the digits: the sign, the base that applies, and where the digits start. */
  datatype Head = Head(negative: bool, base: nat, start: nat)

  predicate ValidBase(base: int)
  {
    base == 0 || 2 <= base <= 36
  }

  function HeadOf(s: string, base: nat): (h: Head)
    requires ValidBase(base)
    ensures 2 <= h.base <= 36 && h.start <= |s|
  {
    var w := SpacesFrom(s, 0);
    var negative := CharAt(s, w) == '-';
    var d := if negative || CharAt(s, w) == '+' then w + 1 else w;
    if (base == 0 || base == 16) && HasHexPrefix(s, d) then Head(negative, 16, d + 2)
    else Head(negative, if base != 0 then base else if CharAt(s, d) == '0' then 8 else 10, d)
  }

  /** The parts of a number: sign, effective base, and the maximal run of digits. */
  datatype Numeral = Numeral(negative: bool, base: nat, start: nat, end: nat)

  function Split(s: string, base: nat): (n: Numeral)
    requires ValidBase(base)
    ensures 2 <= n.base <= 36 && n.start <= n.end <= |s|
    ensures AllDigits(s[n.start..n.end], n.base) && !(Ordinal(CharAt(s, n.end)) < n.base)
  {
    var h := HeadOf(s, base);
    Numeral(h.negative, h.base, h.start, RunEnd(s, h.start, h.base))
  }

  function Clamp(v: int): (r: int)
    ensures -0x8000_0000_0000_0000 <= r <= 0x7FFF_FFFF_FFFF_FFFF
    ensures -0x8000_0000_0000_0000 <= v <= 0x7FFF_FFFF_FFFF_FFFF ==> r == v
    ensures v < -0x8000_0000_0000_0000 ==> r == -0x8000_0000_0000_0000
    ensures 0x7FFF_FFFF_FFFF_FFFF < v ==> r == 0x7FFF_FFFF_FFFF_FFFF
  {
    if v < LONG_MIN then LONG_MIN else if LONG_MAX < v then LONG_MAX else v
  }

  function Signed(negative: bool, v: int): int
  {
    if negative then -v else v
  }

  /** The exact number the numeral denotes, before it is fitted into 64 bits. */
  function Denotes(s: string, n: Numeral): int
    requires n.start <= n.end <= |s|
  {
    Signed(n.negative, Value(s[n.start..n.end], n.base))
  }

  // ---------------------------------------------------------------- strtol

  /** C's division and remainder truncate towards zero. */
  function TruncDiv(a: int, b: int): int
    requires b != 0
  {
    if 0 <= a then a / b else -((-a) / b)
  }

  function TruncMod(a: int, b: int): int
    requires b != 0
  {
    a - b * TruncDiv(a, b)
  }

  /** One more digit overflows `limit` exactly when the accumulator is past the quotient, or at it
      with a digit past the remainder. */
  lemma CutoffIsExact(v: nat, c: nat, base: nat, limit: nat)
    requires 2 <= base && c < base
    ensures limit / base < v || (v == limit / base && limit % base < c) <==> limit < v * base + c
  {
    var q, r := limit / base, limit % base;
    assert limit == q * base + r;
    if q < v {
      assert (q + 1) * base <= v * base;
    } else if v < q {
      assert (v + 1) * base <= q * base;
    }
  }

  method Cutoffs(negative: bool, base: nat) returns (cutoff: int, cutlim: int)
    requires 2 <= base <= 36
    ensures negative ==> cutoff == -(0x8000_0000_0000_0000 / base) && cutlim == 0x8000_0000_0000_0000 % base
    ensures !negative ==> cutoff == LONG_MAX / base && cutlim == LONG_MAX % base
  {
    cutoff := if negative then LONG_MIN else LONG_MAX;
    cutlim := TruncMod(cutoff, base);
    cutoff := TruncDiv(cutoff, base);
    if negative {
      if 0 < cutlim {
        cutlim := cutlim - base;
        cutoff := cutoff + 1;
      }
      cutlim := -cutlim;
    }
  }

  /** Taking in one digit: the new accumulator, or overflow.  Neither the product nor the sum
      leaves the range of a 64-bit long. */
  method TakeDigit(value: int, digit: nat, negative: bool, base: nat, cutoff: int, cutlim: int)
    returns (next: int, overflow: bool)
    requires 2 <= base <= 36 && digit < base
    requires if negative then LONG_MIN <= value <= 0 else 0 <= value <= LONG_MAX
    requires negative ==> cutoff == -(0x8000_0000_0000_0000 / base) && cutlim == 0x8000_0000_0000_0000 % base
    requires !negative ==> cutoff == LONG_MAX / base && cutlim == LONG_MAX % base
    ensures var exact := if negative then value * base - digit else value * base + digit;
            && (overflow <==> exact != Clamp(exact))
            && next == Clamp(exact)
  {
    overflow := false;
    if negative {
      CutoffIsExact(-value, digit, base, 0x8000_0000_0000_0000);
      assert (-value) * base == -(value * base);
      if value < cutoff || (value == cutoff && digit > cutlim) {
        overflow := true;
        next := LONG_MIN;
      } else {
        next := value * base;
        assert LONG_MIN <= next <= LONG_MAX;
        next := next - digit;
      }
    } else {
      CutoffIsExact(value, digit, base, LONG_MAX);
      if value > cutoff || (value == cutoff && digit > cutlim) {
        overflow := true;
        next := LONG_MAX;
      } else {
        next := value * base;
        assert LONG_MIN <= next <= LONG_MAX;
        next := next + digit;
      }
    }
  }

  /** `value` and `overflow` are what the digit loop holds after reading `digits`. */
  ghost predicate Accumulated(value: int, overflow: bool, negative: bool, digits: string, base: nat)
  {
    var exact := Signed(negative, Value(digits, base));
    value == Clamp(exact) && (overflow <==> exact != Clamp(exact))
  }

  lemma SignedStep(negative: bool, v: nat, base: nat, digit: nat)
    ensures Signed(negative, v * base + digit) ==
            if negative then Signed(negative, v) * base - digit else Signed(negative, v) * base + digit
  {
    assert (-(v as int)) * base == -(v * base);
  }

  /** Once out of range, a growing number stays out of range on the same side. */
  lemma OverflowStays(negative: bool, v: nat, w: nat)
    requires v <= w && Signed(negative, v) != Clamp(Signed(negative, v))
    ensures Signed(negative, w) != Clamp(Signed(negative, w))
    ensures Clamp(Signed(negative, w)) == Clamp(Signed(negative, v))
  {
  }

  method ReadDigit(
      value: int, overflow: bool, c: char, negative: bool, base: nat, cutoff: int, cutlim: int,
      ghost digits: string)
    returns (next: int, nextOverflow: bool)
    requires 2 <= base <= 36 && Ordinal(c) < base
    requires Accumulated(value, overflow, negative, digits, base)
    requires negative ==> cutoff == -(0x8000_0000_0000_0000 / base) && cutlim == 0x8000_0000_0000_0000 % base
    requires !negative ==> cutoff == LONG_MAX / base && cutlim == LONG_MAX % base
    ensures Accumulated(next, nextOverflow, negative, digits + [c], base)
  {
    ValueSnoc(digits, c, base);
    ghost var v := Value(digits, base);
    if overflow {
      TimesGrows(v, base);
      OverflowStays(negative, v, v * base + Ordinal(c));
      return value, true;
    }
    SignedStep(negative, v, base, Ordinal(c));
    next, nextOverflow := TakeDigit(value, Ordinal(c), negative, base, cutoff, cutlim);
  }

  /** The digit loop. */
  method Accumulate(s: string, start: nat, negative: bool, base: nat)
    returns (value: int, at: nat, overflow: bool)
    requires start <= |s| && 2 <= base <= 36
    ensures at == RunEnd(s, start, base)
    ensures Accumulated(value, overflow, negative, s[start..at], base)
  {
    var cutoff, cutlim := Cutoffs(negative, base);
    value, at, overflow := 0, start, false;
    while Ordinal(CharAt(s, at)) < base
      invariant start <= at <= |s| && RunEnd(s, at, base) == RunEnd(s, start, base)
      invariant Accumulated(value, overflow, negative, s[start..at], base)
      decreases |s| - at
    {
      assert s[start..at + 1] == s[start..at] + [s[at]];
      value, overflow :=
        ReadDigit(value, overflow, s[at], negative, base, cutoff, cutlim, s[start..at]);
      at := at + 1;
    }
  }

  method ReadHead(s: string, base: nat) returns (negative: bool, b: nat, at: nat)
    requires ValidBase(base)
    ensures HeadOf(s, base) == Head(negative, b, at)
  {
    at := 0;
    while IsSpace(CharAt(s, at))
      invariant at <= |s| && SpacesFrom(s, at) == SpacesFrom(s, 0)
      decreases |s| - at
    {
      at := at + 1;
    }
    negative := false;
    if CharAt(s, at) == '-' {
      negative := true;
      at := at + 1;
    } else if CharAt(s, at) == '+' {
      at := at + 1;
    }
    b := base;
    if (b == 0 || b == 16) && HasHexPrefix(s, at) {
      at := at + 2;
      b := 16;
    }
    if b == 0 {
      b := if CharAt(s, at) == '0' then 8 else 10;
    }
  }

  /** `strtol`.  `unconverted` is the index the source stores through its second argument: the end
      of the run of digits, but the start of the string when the value had to be clamped, and also
      when the base is not one of 0 and 2 to 36. */
  method Strtol(s: string, base: int) returns (value: int, unconverted: nat)
    requires IsCString(s)
    ensures !ValidBase(base) ==> value == 0 && unconverted == 0
    ensures ValidBase(base) ==>
              var n := Split(s, base);
              var exact := Denotes(s, n);
              value == Clamp(exact) && unconverted == if exact == Clamp(exact) then n.end else 0
  {
    if base < 0 || base == 1 || 36 < base {
      return 0, 0;
    }
    var negative, b, at := ReadHead(s, base);
    var overflow;
    value, unconverted, overflow := Accumulate(s, at, negative, b);
    if overflow {
      unconverted := 0;
    }
  }

  // ---------------------------------------------------------------- utoa and itoa

  /** The digit for `d`, as in the source's table "0123456789abcdefghijklmnopqrstuvwxyz". */
  function DigitChar(d: nat): (c: char)
    requires d < 36
    ensures Ordinal(c) == d && (IsDigit(c) || IsLower(c)) && (c == '0' <==> d == 0)
  {
    if d < 10 then (d + '0' as int) as char else (d - 10 + 'a' as int) as char
  }

  /** `s` is how `v` is written in `base`: digits and lower-case letters only, no leading zero. */
  ghost predicate IsNumeralFor(s: string, v: nat, base: nat)
  {
    && 1 <= |s| && AllDigits(s, base) && Value(s, base) == v
    && (forall i :: 0 <= i < |s| ==> IsDigit(s[i]) || IsLower(s[i]))
    && (s[0] == '0' ==> |s| == 1)
  }

  function Reversed(s: string): (r: string)
    ensures |r| == |s|
  {
    if s == "" then "" else Reversed(s[1..]) + [s[0]]
  }

  lemma {:induction false} ReversedAt(s: string, k: nat)
    requires k < |s|
    ensures Reversed(s)[k] == s[|s| - 1 - k]
    decreases |s|
  {
    if k < |s| - 1 {
      ReversedAt(s[1..], k);
    }
  }

  lemma {:induction false} ReversedSnoc(s: string, c: char)
    ensures Reversed(s + [c]) == [c] + Reversed(s)
  {
    if s == "" {
      assert [c][1..] == "";
    } else {
      assert (s + [c])[1..] == s[1..] + [c];
      ReversedSnoc(s[1..], c);
    }
  }

  /** Whatever writes `left`, followed by the digits already taken off, writes `value`. */
  ghost predicate Completes(left: nat, written: string, value: nat, base: nat)
  {
    forall d :: Value(d, base) == left ==> Value(d + Reversed(written), base) == value
  }

  /** Taking the last digit `c` off `left`, with `q` still to be written. */
  lemma TakeOffDigit(left: nat, q: nat, c: char, written: string, value: nat, base: nat)
    requires Completes(left, written, value, base) && left == q * base + Ordinal(c)
    ensures Completes(q, written + [c], value, base)
  {
    forall d | Value(d, base) == q ensures Value(d + Reversed(written + [c]), base) == value {
      ValueSnoc(d, c, base);
      ReversedSnoc(written, c);
      assert d + Reversed(written + [c]) == (d + [c]) + Reversed(written);
    }
  }

  function Power(base: nat, n: nat): nat
  {
    if n == 0 then 1 else base * Power(base, n - 1)
  }

  lemma {:induction false} PowerAdds(base: nat, m: nat, n: nat)
    ensures Power(base, m + n) == Power(base, m) * Power(base, n)
  {
    if 0 < m {
      PowerAdds(base, m - 1, n);
      Associates(base, Power(base, m - 1), Power(base, n));
    }
  }

  lemma Associates(a: nat, b: nat, c: nat)
    ensures a * (b * c) == (a * b) * c
  {
  }

  /** How many digits `value` takes in `base`. */
  function Digits(value: nat, base: nat): (n: nat)
    requires 2 <= base
    ensures 1 <= n
    decreases value
  {
    if value < base then 1
    else
      TwiceTheQuotient(value, value / base, value % base, base);
      1 + Digits(value / base, base)
  }

  /** A value below a power of `b` has no more digits than the exponent says, in base `b` or a larger one. */
  lemma {:induction false} DigitsAtMost(value: nat, base: nat, b: nat, n: nat)
    requires 2 <= b <= base && 1 <= n && value < Power(b, n)
    ensures Digits(value, base) <= n
    decreases n
  {
    if base <= value {
      var q := value / base;
      TimesMonotone(b, base, q);
      assert b * q <= value < b * Power(b, n - 1);
      if Power(b, n - 1) <= q {
        TimesMonotone(Power(b, n - 1), q, b);
        assert false;
      }
      DigitsAtMost(q, base, b, n - 1);
    }
  }

  lemma TimesMonotone(b: nat, base: nat, q: nat)
    requires b <= base
    ensures b * q <= q * base
  {
    assert q * base == b * q + (base - b) * q;
  }

  /** Room for 32 digits is enough for any 32-bit value, room for 10 in base 10. */
  lemma RoomForWord(value: nat, base: nat)
    requires value < UINT_MODULUS && 2 <= base
    ensures Digits(value, base) <= 32 && Digits(value, 10) <= 10
  {
    assert Power(2, 4) == 16;
    PowerAdds(2, 4, 4);
    PowerAdds(2, 8, 8);
    PowerAdds(2, 16, 16);
    DigitsAtMost(value, base, 2, 32);
    assert Power(10, 5) == 100_000;
    PowerAdds(10, 5, 5);
    DigitsAtMost(value, 10, 10, 10);
  }

  /** The division of one turn of the digit loop. */
  method DivideDigit(left: nat, base: nat) returns (q: nat, r: nat)
    requires 2 <= base
    ensures left == q * base + r && r < base && 2 * q <= left && (q == 0 ==> r == left) && q == left / base
  {
    q, r := left / base, left % base;
    TwiceTheQuotient(left, q, r, base);
  }

  lemma TwiceTheQuotient(left: nat, q: nat, r: nat, base: nat)
    requires 2 <= base && left == q * base + r
    ensures 2 * q <= left && (q == 0 ==> r == left)
  {
    TimesGrows(q, base - 1);
    assert q * base == q * (base - 1) + q;
  }

  /** The digits taken off so far, `left` still to be written; as many digits in all as `value` takes. */
  ghost predicate TakenOff(written: string, left: nat, value: nat, base: nat)
    requires 2 <= base
  {
    && |written| + (if left == 0 && written != "" then 0 else Digits(left, base)) == Digits(value, base)
    && Completes(left, written, value, base)
    && forall k :: 0 <= k < |written| ==>
         Ordinal(written[k]) < base && (IsDigit(written[k]) || IsLower(written[k]))
  }

  lemma NothingTakenOff(value: nat, base: nat)
    requires 2 <= base
    ensures TakenOff("", value, value, base)
  {
    forall d | Value(d, base) == value ensures Value(d + Reversed(""), base) == value {
      assert d + Reversed("") == d;
    }
  }

  lemma DigitsStep(left: nat, base: nat)
    requires 2 <= base
    ensures Digits(left, base) == 1 + if left / base == 0 then 0 else Digits(left / base, base)
  {
    if left / base == 0 {
      TwiceTheQuotient(left, 0, left % base, base);
    }
  }

  lemma OneMoreOff(left: nat, next: nat, remainder: nat, written: string, value: nat, base: nat)
    requires 2 <= base <= 36 && TakenOff(written, left, value, base) && (0 < left || written == "")
    requires left == next * base + remainder && remainder < base && next == left / base
    ensures TakenOff(written + [DigitChar(remainder)], next, value, base)
  {
    hide Completes, Digits;
    TakeOffDigit(left, next, DigitChar(remainder), written, value, base);
    DigitsStep(left, base);
  }

  /** One turn of the digit loop. */
  method PutDigit(
      left: nat, str: array<char>, from: nat, i: nat, base: nat, ghost written: string, ghost value: nat)
    returns (next: nat, ghost w: string)
    requires 2 <= base <= 36 && TakenOff(written, left, value, base) && |written| == i && (0 < left || i == 0)
    requires from + i < str.Length && str[from..from + i] == written
    modifies str
    ensures |w| == i + 1 && w == str[from..from + i + 1] && str[..from] == old(str[..from])
    ensures TakenOff(w, next, value, base)
    ensures if left == 0 then next == 0 else next < left
    ensures next == 0 ==> (w[i] == '0' <==> left == 0)
  {
    var remainder;
    next, remainder := DivideDigit(left, base);
    OneMoreOff(left, next, remainder, written, value, base);
    str[from + i] := DigitChar(remainder);
    w := written + [DigitChar(remainder)];
    assert str[from..from + i + 1] == str[from..from + i] + [str[from + i]];
  }

  /** The digit loop of `utoa`: least significant digit first. */
  method FillBackwards(value: nat, str: array<char>, from: nat, base: nat) returns (i: nat)
    requires 2 <= base <= 36 && from + Digits(value, base) <= str.Length
    modifies str
    ensures 1 <= i == Digits(value, base)
    ensures IsNumeralFor(Reversed(str[from..from + i]), value, base)
    ensures str[..from] == old(str[..from])
  {
    var left: nat := value;
    i := 0;
    ghost var written := str[from..from];
    NothingTakenOff(value, base);
    while true
      invariant |written| == i < Digits(value, base) && str[from..from + i] == written
      invariant TakenOff(written, left, value, base) && (0 < left || i == 0)
      invariant str[..from] == old(str[..from])
      decreases left
    {
      left, written := PutDigit(left, str, from, i, base, written, value);
      i := i + 1;
      if left == 0 {
        break;
      }
    }
    FinishedNumeral(written, value, base);
  }

  lemma FinishedNumeral(written: string, value: nat, base: nat)
    requires 2 <= base && 1 <= |written| && TakenOff(written, 0, value, base)
    requires written[|written| - 1] == '0' ==> |written| == 1
    ensures IsNumeralFor(Reversed(written), value, base)
  {
    hide Digits;
    assert Value("", base) == 0;
    assert "" + Reversed(written) == Reversed(written);
    forall k | 0 <= k < |written| ensures Reversed(written)[k] == written[|written| - 1 - k] {
      ReversedAt(written, k);
    }
  }

  /** `utoa` into `str` from index `from`: the digits, then the terminator. */
  method Utoa(value: nat, str: array<char>, from: nat, base: int) returns (ok: bool, end: nat)
    requires value < UINT_MODULUS && from < str.Length
    requires 2 <= base <= 36 ==> from + Digits(value, base) < str.Length
    modifies str
    ensures ok <==> 2 <= base <= 36
    ensures str[..from] == old(str[..from])
    ensures from <= end < str.Length && str[end] == '\0'
    ensures end == from + (if ok then Digits(value, base) else 0)
    ensures ok ==> IsNumeralFor(str[from..end], value, base)
  {
    if base < 2 || 36 < base {
      str[from] := '\0';
      return false, from;
    }
    ok := true;
    var i := FillBackwards(value, str, from, base);
    end := from + i;
    str[end] := '\0';
    ReverseInPlace(str, from, end);
  }

  method ReverseInPlace(str: array<char>, from: nat, end: nat)
    requires from <= end <= str.Length
    modifies str
    ensures str[from..end] == Reversed(old(str[from..end]))
    ensures str[..from] == old(str[..from]) && str[end..] == old(str[end..])
  {
    ghost var all := str[..];
    var j: int, i: int := from, end - 1;
    while j < i
      invariant from <= j <= i + 2 && j + i == from + end - 1
      invariant forall k :: 0 <= k < |all| && (k < from || j <= k <= i || end <= k) ==> str[k] == all[k]
      invariant forall k, m :: from <= k < end && (k < j || i < k) && m + k == from + end - 1 ==>
                  str[k] == all[m]
    {
      var c := str[j];
      str[j] := str[i];
      str[i] := c;
      j, i := j + 1, i - 1;
    }
    ghost var was := all[from..end];
    forall k | 0 <= k < end - from ensures str[from..end][k] == Reversed(was)[k] {
      ReversedAt(was, k);
      assert str[from + k] == all[end - 1 - k];
    }
    assert old(str[from..end]) == was;
    assert str[..from] == all[..from] && str[end..] == all[end..];
  }

  /** `s` is what `itoa` writes for `value`: a sign only in base 10; in every other base the 32-bit
      pattern is read as unsigned. */
  ghost predicate IsItoaText(s: string, value: int, base: nat)
  {
    if base == 10 && value < 0 then
      1 <= |s| && s[0] == '-' && IsNumeralFor(s[1..], (-value) % UINT_MODULUS, base)
    else IsNumeralFor(s, value % UINT_MODULUS, base)
  }

  /** How many characters come before the terminator. */
  function ItoaLength(value: int, base: nat): (n: nat)
    requires 2 <= base
  {
    if base == 10 && value < 0 then 1 + Digits((-value) % UINT_MODULUS, base) else Digits(value % UINT_MODULUS, base)
  }

  /** `itoa` writes its text, terminated, into any buffer with room for it. */
  method Itoa(value: int, str: array<char>, base: int) returns (ok: bool, end: nat)
    requires -0x8000_0000 <= value < 0x8000_0000 && 1 <= str.Length
    requires 2 <= base <= 36 ==> ItoaLength(value, base) < str.Length
    modifies str
    ensures ok <==> 2 <= base <= 36
    ensures end == (if ok then ItoaLength(value, base) else 0) && end < str.Length && str[end] == '\0'
    ensures ok ==> IsItoaText(str[..end], value, base)
  {
    if base < 2 || 36 < base {
      str[0] := '\0';
      return false, 0;
    }
    var first := 0;
    var unsignedValue;
    if base == 10 && value < 0 {
      str[0] := '-';
      first := 1;
      unsignedValue := (-value) % UINT_MODULUS;
    } else {
      unsignedValue := value % UINT_MODULUS;
    }
    ghost var prefix := str[..first];
    ok, end := Utoa(unsignedValue, str, first, base);
    assert str[..end] == prefix + str[first..end];
  }

  // ---------------------------------------------------------------- what may stand around a numeral

  /** Characters that `strtol` passes over. */
  ghost predicate IsBlank(s: string)
  {
    forall i :: 0 <= i < |s| ==> s[i] as int in {9, 10, 11, 12, 13, 32}
  }

  lemma {:induction false} SpacesPassed(s: string, i: nat, n: nat)
    requires i <= n <= |s| && (forall k :: i <= k < n ==> s[k] as int in {9, 10, 11, 12, 13, 32})
    requires n < |s| ==> s[n] as int !in {9, 10, 11, 12, 13, 32}
    ensures SpacesFrom(s, i) == n
    decreases n - i
  {
    if i < n {
      SpacesPassed(s, i + 1, n);
    }
  }

  /** A prefix and the base it selects when the base asked for is `asked`. */
  ghost predicate Selects(prefix: string, digits: string, asked: nat, base: nat)
  {
    || (prefix == "" && asked == base && 2 <= base <= 36)
    || (prefix in {"0x", "0X"} && asked in {0, 16} && base == 16)
    || (prefix == "0" && asked == 0 && base == 8)
    || (prefix == "" && asked == 0 && base == 10 && 1 <= |digits| && digits[0] != '0')
  }

  lemma {:induction false} LeadingZero(s: string, base: nat)
    ensures Value("0" + s, base) == Value(s, base)
  {
    if s == "" {
      assert ("0" + s)[..0] == "";
    } else {
      assert ("0" + s)[..|s|] == "0" + s[..|s| - 1];
      LeadingZero(s[..|s| - 1], base);
    }
  }

  /** White space, a sign and a prefix in front of a numeral are read as what they mean. */
  lemma HeadIsRead(spaces: string, sign: string, prefix: string, digits: string, asked: nat, base: nat, v: nat)
    requires IsBlank(spaces) && sign in {"", "+", "-"} && Selects(prefix, digits, asked, base)
    requires IsNumeralFor(digits, v, base)
    ensures var t := spaces + sign + prefix + digits;
            Denotes(t, Split(t, asked)) == Signed(sign == "-", v) && Split(t, asked).end == |t|
  {
    hide Value, HeadOf, RunEnd, Selects, IsNumeralFor, IsBlank, HasHexPrefix, SpacesFrom, IsDigitOrLetter, Ordinal,
         CharAt;
    var front := spaces + sign;
    var t, d := front + prefix + digits, |front|;
    FirstOfNumber(prefix, digits, asked, base, v);
    SignIsRead(spaces, sign, prefix + digits);
    assert t == front + (prefix + digits) && t[d..] == prefix + digits;
    var from := if prefix == "0" then d else d + |prefix|;
    PrefixIsRead(t, d, prefix, digits, asked, base, v);
    HeadFrom(t, |spaces|, d, sign, prefix, asked, base);
    assert t[from..] == if prefix == "0" then prefix + digits else digits;
    WholeRunOf(t, from, prefix, digits, base, v);
  }

  ghost predicate IsDigitOrLetter(c: char)
  {
    Ordinal(c) < 36
  }

  lemma FirstOfNumber(prefix: string, digits: string, asked: nat, base: nat, v: nat)
    requires Selects(prefix, digits, asked, base) && IsNumeralFor(digits, v, base)
    ensures 2 <= base <= 36 && ValidBase(asked) && prefix in {"", "0", "0x", "0X"}
    ensures prefix + digits != "" && IsDigitOrLetter((prefix + digits)[0])
  {
  }

  lemma SignIsRead(spaces: string, sign: string, number: string)
    requires IsBlank(spaces) && sign in {"", "+", "-"} && number != "" && IsDigitOrLetter(number[0])
    ensures var t, w := spaces + sign + number, |spaces|;
            && SpacesFrom(t, 0) == w
            && if sign == "" then CharAt(t, w) != '-' && CharAt(t, w) != '+' else CharAt(t, w) == sign[0]
  {
    var t := spaces + sign + number;
    assert forall k :: 0 <= k < |spaces| ==> t[k] == spaces[k];
    assert t[|spaces|] == if sign == "" then number[0] else sign[0];
    SpacesPassed(t, 0, |spaces|);
  }

  lemma HeadFrom(t: string, w: nat, d: nat, sign: string, prefix: string, asked: nat, base: nat)
    requires ValidBase(asked) && SpacesFrom(t, 0) == w && sign in {"", "+", "-"} && d == w + |sign|
    requires if sign == "" then CharAt(t, w) != '-' && CharAt(t, w) != '+' else CharAt(t, w) == sign[0]
    requires HasHexPrefix(t, d) && asked in {0, 16} <==> prefix in {"0x", "0X"}
    requires prefix in {"", "0", "0x", "0X"} && (prefix in {"0x", "0X"} ==> base == 16)
    requires prefix in {"", "0"} ==> base == if asked != 0 then asked else if CharAt(t, d) == '0' then 8 else 10
    ensures HeadOf(t, asked) == Head(sign == "-", base, if prefix in {"", "0"} then d else d + 2)
  {
    hide HasHexPrefix;
  }

  /** A prefix without a hexadecimal digit behind it is none: it is read as the digit 0. */
  lemma NoHexPrefix(rest: string, asked: nat)
    requires asked in {0, 16}
    requires rest == "" || var c := rest[0] as int; c < 48 || 57 < c < 65 || 70 < c < 97 || 102 < c
    ensures var t := "0x" + rest;
            Denotes(t, Split(t, asked)) == 0 && Split(t, asked).end == 1
  {
    var t := "0x" + rest;
    assert t[0] == '0' && t[1] == 'x' && CharAt(t, 2) == if rest == "" then '\0' else rest[0];
    assert SpacesFrom(t, 0) == 0;
    assert RunEnd(t, 1, 16) == RunEnd(t, 1, 8) == 1;
    assert t[0..1] == "0" && "0"[..0] == "";
  }

  lemma PrefixIsRead(t: string, d: nat, prefix: string, digits: string, asked: nat, base: nat, v: nat)
    requires Selects(prefix, digits, asked, base) && IsNumeralFor(digits, v, base)
    requires d <= |t| && t[d..] == prefix + digits
    ensures HasHexPrefix(t, d) && asked in {0, 16} <==> prefix in {"0x", "0X"}
    ensures prefix in {"", "0", "0x", "0X"} && (prefix in {"0x", "0X"} ==> base == 16)
    ensures prefix in {"", "0"} ==> base == if asked != 0 then asked else if CharAt(t, d) == '0' then 8 else 10
  {
    hide Value;
    assert forall k :: d <= k < |t| ==> t[k] == t[d..][k - d];
    assert CharAt(t, d) == t[d] == (prefix + digits)[0];
    assert 2 <= |prefix| + |digits| ==> CharAt(t, d + 1) == t[d + 1] == (prefix + digits)[1];
    if prefix in {"0x", "0X"} {
      assert (prefix + digits)[2] == digits[0] && Ordinal(digits[0]) < 16;
      assert CharAt(t, d + 2) == t[d + 2] == digits[0];
    } else if prefix == "0" {
      assert digits[0] == (prefix + digits)[1] && Ordinal(digits[0]) < 8;
    }
  }

  lemma {:induction false} WholeRun(t: string, d: nat, base: nat)
    requires d <= |t| && base <= 36 && forall i :: d <= i < |t| ==> Ordinal(t[i]) < base
    ensures RunEnd(t, d, base) == |t|
    decreases |t| - d
  {
    if d < |t| {
      WholeRun(t, d + 1, base);
    }
  }

  lemma WholeRunOf(t: string, from: nat, prefix: string, digits: string, base: nat, v: nat)
    requires IsNumeralFor(digits, v, base) && 2 <= base <= 36 && from <= |t|
    requires t[from..] == if prefix == "0" then "0" + digits else digits
    ensures RunEnd(t, from, base) == |t| && t[from..|t|] == t[from..] && Value(t[from..], base) == v
  {
    forall i | from <= i < |t| ensures Ordinal(t[i]) < base {
      assert t[i] == t[from..][i - from];
      assert prefix == "0" && from < i ==> t[i] == digits[i - from - 1];
    }
    WholeRun(t, from, base);
    if prefix == "0" {
      LeadingZero(digits, base);
    }
  }

  /** Two texts that differ only in the case of their letters are read as the same number. */
  lemma CaseDoesNotMatter(s: string, t: string, base: nat)
    requires ValidBase(base) && SameButCase(s, t)
    ensures Split(s, base) == Split(t, base) && Denotes(s, Split(s, base)) == Denotes(t, Split(t, base))
  {
    hide HeadOf, RunEnd, Value, SameButCase;
    SameHead(s, t, base);
    var h := HeadOf(s, base);
    SameRun(s, t, h.start, h.base);
    var n := Split(s, base);
    SameParts(s, t, n.start, n.end);
    SameValue(s[n.start..n.end], t[n.start..n.end], n.base);
  }

  ghost predicate SameButCase(s: string, t: string)
  {
    |s| == |t| && forall i :: 0 <= i < |s| ==> SameLetter(s[i], t[i])
  }

  lemma SameParts(s: string, t: string, i: nat, j: nat)
    requires SameButCase(s, t) && i <= j <= |s|
    ensures |t| == |s| && SameButCase(s[i..j], t[i..j])
  {
  }

  lemma SameAt(s: string, t: string, i: nat)
    requires SameButCase(s, t)
    ensures SameLetter(CharAt(s, i), CharAt(t, i))
  {
  }

  lemma SameHead(s: string, t: string, base: nat)
    requires ValidBase(base) && SameButCase(s, t)
    ensures HeadOf(s, base) == HeadOf(t, base)
  {
    hide SameButCase;
    SameSpaces(s, t, 0);
    var w := SpacesFrom(s, 0);
    SameAt(s, t, w);
    var d := if CharAt(s, w) == '-' || CharAt(s, w) == '+' then w + 1 else w;
    SameAt(s, t, d);
    SameAt(s, t, d + 1);
    SameAt(s, t, d + 2);
    assert HasHexPrefix(s, d) == HasHexPrefix(t, d);
  }

  lemma {:induction false} SameSpaces(s: string, t: string, i: nat)
    requires i <= |s| && SameButCase(s, t)
    ensures |t| == |s| && SpacesFrom(s, i) == SpacesFrom(t, i)
    decreases |s| - i
  {
    if i < |s| {
      SameSpaces(s, t, i + 1);
    }
  }

  lemma {:induction false} SameRun(s: string, t: string, i: nat, base: nat)
    requires i <= |s| && base <= 36 && SameButCase(s, t)
    ensures |t| == |s| && RunEnd(s, i, base) == RunEnd(t, i, base)
    decreases |s| - i
  {
    if i < |s| {
      assert Ordinal(s[i]) == Ordinal(t[i]);
      SameRun(s, t, i + 1, base);
    }
  }

  lemma {:induction false} SameValue(s: string, t: string, base: nat)
    requires SameButCase(s, t)
    ensures Value(s, base) == Value(t, base)
    decreases |s|
  {
    if s != "" {
      SameValue(s[..|s| - 1], t[..|t| - 1], base);
      assert Ordinal(s[|s| - 1]) == Ordinal(t[|s| - 1]);
    }
  }

  // ---------------------------------------------------------------- round trips

  /** Parsing an optional sign and a plain numeral finds exactly the numeral. */
  lemma SplitOfNumeral(s: string, v: nat, base: nat, negative: bool)
    requires 2 <= base <= 36 && IsNumeralFor(s, v, base)
    ensures var t := if negative then "-" + s else s;
            Denotes(t, Split(t, base)) == Signed(negative, v) && Split(t, base).end == |t|
  {
    hide IsNumeralFor, Denotes, Split, Signed;
    var sign := if negative then "-" else "";
    assert "" + sign + "" + s == if negative then "-" + s else s;
    HeadIsRead("", sign, "", s, base, base, v);
  }

  /** `strtol` undoes `utoa` in every base, for every 32-bit value. */
  lemma StrtolUndoesUtoa(s: string, v: nat, base: nat)
    requires v < UINT_MODULUS && 2 <= base <= 36 && IsNumeralFor(s, v, base)
    ensures Clamp(Denotes(s, Split(s, base))) == v && Split(s, base).end == |s|
  {
    SplitOfNumeral(s, v, base, false);
  }

  /** `strtol` undoes `itoa` in base 10 for every 32-bit value, the least one included. */
  lemma StrtolUndoesItoa(s: string, v: int)
    requires -0x8000_0000 <= v < 0x8000_0000 && IsItoaText(s, v, 10)
    ensures Clamp(Denotes(s, Split(s, 10))) == v && Split(s, 10).end == |s|
  {
    hide Split, Value, IsNumeralFor;
    if v < 0 {
      assert (-v) % UINT_MODULUS == -v;
      assert s == "-" + s[1..];
      SplitOfNumeral(s[1..], -v, 10, true);
    } else {
      assert v % UINT_MODULUS == v;
      SplitOfNumeral(s, v, 10, false);
    }
  }

  /** A number has only one numeral in each base. */
  lemma {:induction false} NumeralUnique(s: string, t: string, v: nat, base: nat)
    requires 2 <= base && IsNumeralFor(s, v, base) && IsNumeralFor(t, v, base)
    ensures s == t
    decreases |s|
  {
    var m, n := |s| - 1, |t| - 1;
    var a, b := Value(s[..m], base), Value(t[..n], base);
    LastDigit(a, Ordinal(s[m]), b, Ordinal(t[n]), base);
    SameOrdinal(s[m], t[n]);
    if m == 0 {
      assert s[..m] == "";
      LeadingDigit(t, n, base);
    } else {
      LeadingDigit(s, m, base);
      EmptyPrefix(t, base);
      NumeralUnique(s[..m], t[..n], a, base);
      assert s == s[..m] + [s[m]] && t == t[..n] + [t[n]];
    }
  }

  lemma ScaledGap(x: int, base: nat)
    ensures 1 <= x ==> base <= x * base
    ensures x <= -1 ==> x * base <= -(base as int)
  {
    if 1 <= x {
      TimesGrows(base, x);
    } else if x <= -1 {
      TimesGrows(base, -x);
      assert x * base == -(base * (-x));
    }
  }

  lemma LastDigit(a: nat, c: nat, b: nat, d: nat, base: nat)
    requires c < base && d < base && a * base + c == b * base + d
    ensures a == b && c == d
  {
    ScaledGap(b - a, base);
    assert (b - a) * base == b * base - a * base;
  }

  lemma EmptyPrefix(t: string, base: nat)
    ensures Value(t[..0], base) == 0
  {
  }

  lemma SameOrdinal(c: char, d: char)
    requires (IsDigit(c) || IsLower(c)) && (IsDigit(d) || IsLower(d)) && Ordinal(c) == Ordinal(d)
    ensures c == d
  {
  }

  /** A non-empty proper prefix of a numeral without leading zeros is not worth zero. */
  lemma {:induction false} LeadingDigit(s: string, n: nat, base: nat)
    requires 1 <= base && n < |s| && (forall i :: 0 <= i < |s| ==> IsDigit(s[i]) || IsLower(s[i]))
    requires s[0] == '0' ==> |s| == 1
    ensures 0 < n ==> 0 < Value(s[..n], base)
  {
    if 0 < n {
      assert s[..n][..n - 1] == s[..n - 1];
      if n == 1 {
        assert s[..n - 1] == "";
      } else {
        LeadingDigit(s, n - 1, base);
        TimesGrows(Value(s[..n - 1], base), base);
      }
    }
  }
}
