/** Number formatting (kservice.c): digits, padding and signs written to a buffer that may be too short,
    and the parser that reads widths. A long has 32 bits; RT_PRINTF_PRECISION is defined and
    RT_PRINTF_LONGLONG and RT_PRINTF_SPECIAL are not. */
module Format {
  import opened Sizes

  const INT_SPAN: int := 0x8000_0000      // one more than the largest int

  datatype Flags = Flags(zeropad: bool, sign: bool, plus: bool, space: bool, left: bool, large: bool)

  // ---------- Numerals ----------

  /** divide: every base other than 10 is taken for 16. */
  function Radix(base: int): (r: nat)
    ensures r == 10 || r == 16
  {
    if base == 10 then 10 else 16
  }

  /** The digit `d` from the table of small or of large digits. */
  function DigitChar(d: nat, large: bool): char
    requires d < 16
  {
    if d < 10 then '0' + d as char else (if large then 'A' else 'a') + (d - 10) as char
  }

  function DigitValue(c: char): nat {
    if '0' <= c <= '9' then c as nat - '0' as nat
    else if 'a' <= c <= 'f' then c as nat - 'a' as nat + 10
    else if 'A' <= c <= 'F' then c as nat - 'A' as nat + 10
    else 0
  }

  /** The numeral of `n`, most significant digit first. */
  function Digits(n: nat, radix: nat, large: bool): (s: string)
    requires radix == 10 || radix == 16
    ensures s != []
  {
    if n < radix then [DigitChar(n, large)]
    else Digits(n / radix, radix, large) + [DigitChar(n % radix, large)]
  }

  function Value(s: string, radix: nat): nat {
    if s == [] then 0 else Value(s[..|s| - 1], radix) * radix + DigitValue(s[|s| - 1])
  }

  predicate IsDigit(c: char) {
    '0' <= c <= '9'
  }

  lemma DigitCharValue(d: nat, large: bool)
    requires d < 16
    ensures DigitValue(DigitChar(d, large)) == d && (d < 10 ==> IsDigit(DigitChar(d, large)))
  {}

  lemma ValueAppend(s: string, c: char, radix: nat)
    ensures Value(s + [c], radix) == Value(s, radix) * radix + DigitValue(c)
  {
    assert (s + [c])[..|s|] == s;
  }

  lemma Recombined(n: nat, radix: nat)
    requires radix == 10 || radix == 16
    ensures n / radix * radix + n % radix == n
  {
    if radix == 10 {
    } else {
    }
  }

  /** The numeral says the number. */
  lemma {:induction false} DigitsValue(n: nat, radix: nat, large: bool)
    requires radix == 10 || radix == 16
    ensures Value(Digits(n, radix, large), radix) == n
  {
    var last := DigitChar(n % radix, large);
    DigitCharValue(n % radix, large);
    if n < radix {
      ValueAppend([], last, radix);
      assert [] + [last] == [last];
    } else {
      DigitsValue(n / radix, radix, large);
      ValueAppend(Digits(n / radix, radix, large), last, radix);
      Recombined(n, radix);
    }
  }

  lemma {:induction false} ReadInEights(n: nat, large: bool)
    ensures Value(Digits(n, 16, large), 8) <= n && (n >= 16 ==> Value(Digits(n, 16, large), 8) < n)
    ensures n < 16 ==> Value(Digits(n, 16, large), 8) == n
  {
    var last := DigitChar(n % 16, large);
    DigitCharValue(n % 16, large);
    if n < 16 {
      ValueAppend([], last, 8);
      assert [] + [last] == [last];
    } else {
      ReadInEights(n / 16, large);
      ValueAppend(Digits(n / 16, 16, large), last, 8);
    }
  }

  /** divide does not know base 8: what is printed for it is the number in octal only below 8. */
  lemma OctalOnlyBelowEight(n: nat, large: bool)
    ensures var s := Digits(n, Radix(8), large);
            Value(s, 8) == n && DigitValue(s[|s| - 1]) < 8 <==> n < 8
  {
    ReadInEights(n, large);
    DigitCharValue(n % 16, large);
  }

  lemma {:induction false} DecimalDigits(n: nat, large: bool)
    ensures forall i :: 0 <= i < |Digits(n, 10, large)| ==> IsDigit(Digits(n, 10, large)[i])
  {
    DigitCharValue(n % 10, large);
    if n >= 10 {
      DecimalDigits(n / 10, large);
    }
  }

  /** A 32-bit number has at most ten digits, so that they fit in the temporary buffer. */
  lemma DigitsFit(n: nat, radix: nat, large: bool)
    requires (radix == 10 || radix == 16) && n < SIZE_SPAN
    ensures |Digits(n, radix, large)| <= 10
  {
    DigitsBelow(n, radix, large, 10, 10000000000);
  }

  lemma {:induction false} DigitsBelow(n: nat, radix: nat, large: bool, k: nat, limit: nat)
    requires (radix == 10 || radix == 16) && 1 <= k <= 10 && n < limit && limit == TenTo(k)
    ensures |Digits(n, radix, large)| <= k
  {
    if n >= radix {
      assert k > 1;
      assert TenTo(k) == 10 * TenTo(k - 1);
      assert n / radix <= n / 10 < TenTo(k - 1);
      DigitsBelow(n / radix, radix, large, k - 1, TenTo(k - 1));
    }
  }

  function TenTo(k: nat): nat {
    if k == 0 then 1 else 10 * TenTo(k - 1)
  }

  // ---------- Formatted numbers ----------

  function Repeat(c: char, n: int): (s: string)
    ensures |s| == if n > 0 then n else 0
    ensures forall i :: 0 <= i < |s| ==> s[i] == c
  {
    if n <= 0 then [] else seq(n, _ => c)
  }

  function SignOf(f: Flags, num: int): string {
    if !f.sign then ""
    else if num < 0 then "-"
    else if f.plus then "+"
    else if f.space then " "
    else ""
  }

  /** What is printed of `num` after the sign: a signed number's magnitude, or all 32 bits. */
  function Magnitude(f: Flags, num: int): (m: nat)
    requires -INT_SPAN <= num < INT_SPAN
    ensures m < SIZE_SPAN
  {
    if f.sign && num < 0 then -num else if num < 0 then num + SIZE_SPAN else num
  }

  /** The digits, after the zeros that bring them to `precision`; an explicit precision of 0 drops them. */
  function Body(digits: string, precision: int): string {
    Repeat('0', precision - |digits|) + (if precision == 0 then "" else digits)
  }

  /** What stands before the digits when `pad` characters are missing. */
  function Leading(sign: string, pad: int, zeropad: bool, left: bool): string {
    if left then sign else if zeropad then sign + Repeat('0', pad) else Repeat(' ', pad) + sign
  }

  function Trailing(pad: int, left: bool): string {
    if left then Repeat(' ', pad) else ""
  }

  /** A sign and digits laid out in a field. */
  function Laid(f: Flags, sign: string, digits: string, width: int, precision: int): string {
    var pad := width - Larger(|digits|, precision) - |sign|;
    Leading(sign, pad, f.zeropad && !f.left, f.left) + (Body(digits, precision) + Trailing(pad, f.left))
  }

  lemma LaidSplit(f: Flags, sign: string, digits: string, width: int, precision: int, size: int)
    requires if f.left then size == width - Larger(|digits|, precision) - |sign| else size < 0
    ensures Laid(f, sign, digits, width, precision)
         == Leading(sign, width - Larger(|digits|, precision) - |sign|, f.zeropad && !f.left, f.left)
            + (Body(digits, precision) + Repeat(' ', size))
  {
    hide Leading, Body;
  }

  /** What print_number writes, given room enough. */
  function Formatted(f: Flags, num: int, base: int, width: int, precision: int): string
    requires -INT_SPAN <= num < INT_SPAN
  {
    Laid(f, SignOf(f, num), Digits(Magnitude(f, num), Radix(base), f.large), width, precision)
  }

  /** The length is the width, or that of the number if it is longer, for every mix of flags, exactly
      when the precision is not an explicit 0. */
  lemma FormattedLength(f: Flags, num: int, base: int, width: int, precision: int)
    requires -INT_SPAN <= num < INT_SPAN
    ensures var digits := Digits(Magnitude(f, num), Radix(base), f.large);
            var length := Larger(width, Larger(|digits|, precision) + |SignOf(f, num)|);
            |Formatted(f, num, base, width, precision)| == length <==> precision != 0
  {}

  // ---------- Reading numbers ----------

  /** A number as a 32-bit int holds it. */
  function Int32(n: nat): int {
    var r := n % SIZE_SPAN;
    if r < INT_SPAN then r else r - SIZE_SPAN
  }

  /** The place of the first character from `k` on that is no digit. */
  function DigitsEnd(s: string, k: nat): (e: nat)
    requires k <= |s|
    ensures k <= e <= |s| && (forall i :: k <= i < e ==> IsDigit(s[i])) && (e < |s| ==> !IsDigit(s[e]))
    decreases |s| - k
  {
    if k < |s| && IsDigit(s[k]) then DigitsEnd(s, k + 1) else k
  }

  /** skip_atoi on `s` from place `k`, the end of `s` being the terminating null. */
  method SkipAtoi(s: string, k: nat) returns (i: int, e: nat)
    requires k <= |s|
    ensures e == DigitsEnd(s, k) && i == Int32(Value(s[k..e], 10))
  {
    i, e := 0, k;
    ghost var read := "";
    while e < |s| && IsDigit(s[e])
      invariant k <= e <= |s| && DigitsEnd(s, e) == DigitsEnd(s, k)
      invariant read == s[k..e] && i == Int32(Value(read, 10))
    {
      i := AddDigit(i, s[e], read);
      read := read + [s[e]];
      e := e + 1;
    }
  }

  /** i * 10 + c - '0' in 32 bits. */
  method AddDigit(i: int, c: char, ghost read: string) returns (j: int)
    requires IsDigit(c) && i == Int32(Value(read, 10))
    ensures j == Int32(Value(read + [c], 10))
  {
    AppendDigit(read, c);
    j := Int(i * 10 + (c as int - '0' as int));
  }

  /** What 32-bit arithmetic keeps of a result. */
  function Int(x: int): int {
    Int32(x % SIZE_SPAN)
  }

  lemma AppendDigit(s: string, c: char)
    requires IsDigit(c)
    ensures Int32(Value(s + [c], 10)) == Int(Int32(Value(s, 10)) * 10 + (c as int - '0' as int))
  {
    ValueAppend(s, c, 10);
    Int32Step(Value(s, 10), c as int - '0' as int);
  }

  lemma Int32Step(n: nat, d: nat)
    ensures Int32(n * 10 + d) == Int(Int32(n) * 10 + d)
  {
    var q := n / SIZE_SPAN + (if n % SIZE_SPAN < INT_SPAN then 0 else 1);
    assert Int32(n) == n - q * SIZE_SPAN;
    ModShift(n * 10 + d, 10 * q);
  }

  lemma ModShift(x: int, q: int)
    ensures (x - q * SIZE_SPAN) % SIZE_SPAN == x % SIZE_SPAN
  {}

  lemma {:induction false} ValueOfZeros(n: nat, s: string, radix: nat)
    ensures Value(Repeat('0', n) + s, radix) == Value(s, radix)
    decreases |s|, n
  {
    var z := Repeat('0', n);
    if s != [] {
      ValueOfZeros(n, s[..|s| - 1], radix);
      assert (z + s)[..|z + s| - 1] == z + s[..|s| - 1];
    } else if n > 0 {
      ValueOfZeros(n - 1, s, radix);
      assert z + s == z && z[..n - 1] == Repeat('0', n - 1) == Repeat('0', n - 1) + s;
    } else {
      assert z + s == s;
    }
  }

  lemma DigitsEndIs(s: string, k: nat, e: nat)
    requires k <= e <= |s| && (forall i :: k <= i < e ==> IsDigit(s[i])) && (e < |s| ==> !IsDigit(s[e]))
    ensures DigitsEnd(s, k) == e
    decreases e - k
  {
    if k < e {
      DigitsEndIs(s, k + 1, e);
    }
  }

  /** A numeral between something that is not one and something that does not go on reads as its value. */
  lemma ReadsAt(head: string, numeral: string, tail: string)
    requires AllDigits(numeral) && NoDigits(tail)
    ensures var out := head + numeral + tail;
            DigitsEnd(out, |head|) == |head| + |numeral| && out[|head|..|head| + |numeral|] == numeral
  {
    var out := head + numeral + tail;
    DigitsEndIs(out, |head|, |head| + |numeral|);
  }

  lemma ZerosBefore(n: int, s: string, radix: nat)
    ensures Value(Repeat('0', n) + s, radix) == Value(s, radix)
  {
    ValueOfZeros(|Repeat('0', n)|, s, radix);
    assert Repeat('0', |Repeat('0', n)|) == Repeat('0', n);
  }

  /** Where the numeral begins in a field: after the spaces and the sign. */
  function NumeralStart(f: Flags, sign: string, digits: string, width: int, precision: int): nat {
    var pad := width - Larger(|digits|, precision) - |sign|;
    if f.left || f.zeropad || pad < 0 then |sign| else pad + |sign|
  }

  /** The zeros and digits of a field. */
  function Numeral(f: Flags, sign: string, digits: string, width: int, precision: int): string {
    var pad := width - Larger(|digits|, precision) - |sign|;
    Repeat('0', if f.zeropad && !f.left then pad else 0) + Body(digits, precision)
  }

  ghost predicate AllDigits(s: string) {
    forall i :: 0 <= i < |s| ==> IsDigit(s[i])
  }

  ghost predicate NoDigits(s: string) {
    forall i :: 0 <= i < |s| ==> !IsDigit(s[i])
  }

  lemma LaidParts(f: Flags, sign: string, digits: string, width: int, precision: int) returns (head: string, tail: string)
    requires NoDigits(sign)
    ensures Laid(f, sign, digits, width, precision) == head + Numeral(f, sign, digits, width, precision) + tail
    ensures |head| == NumeralStart(f, sign, digits, width, precision) && NoDigits(head) && NoDigits(tail)
    ensures head == Repeat(' ', |head| - |sign|) + sign && (f.left || f.zeropad || width <= 0 ==> head == sign)
    ensures tail == Repeat(' ', |tail|) && (!f.left ==> tail == "")
  {
    var pad := width - Larger(|digits|, precision) - |sign|;
    head := if f.left || f.zeropad then sign else Repeat(' ', pad) + sign;
    tail := if f.left then Repeat(' ', pad) else "";
  }

  lemma NumeralValue(f: Flags, sign: string, digits: string, width: int, precision: int, radix: nat)
    requires precision != 0
    ensures var s := Numeral(f, sign, digits, width, precision);
            Value(s, radix) == Value(digits, radix) && forall i :: 0 <= i < |s| ==> s[i] == '0' || s[i] in digits
  {
    var pad := width - Larger(|digits|, precision) - |sign|;
    ZerosBefore(precision - |digits|, digits, radix);
    ZerosBefore(if f.zeropad && !f.left then pad else 0, Body(digits, precision), radix);
  }

  /** The digits of `out` from place `k` on, the first there are, say `v`. */
  ghost predicate ReadsAs(out: string, k: nat, v: int) {
    k <= |out| && NoDigits(out[..k]) && Value(out[k..DigitsEnd(out, k)], 10) == v
  }

  lemma LaidReadsBack(f: Flags, sign: string, digits: string, width: int, precision: int)
    requires AllDigits(digits) && NoDigits(sign) && precision != 0
    ensures ReadsAs(Laid(f, sign, digits, width, precision), NumeralStart(f, sign, digits, width, precision), Value(digits, 10))
  {
    var head, tail := LaidParts(f, sign, digits, width, precision);
    NumeralValue(f, sign, digits, width, precision, 10);
    ReadsAt(head, Numeral(f, sign, digits, width, precision), tail);
    assert Laid(f, sign, digits, width, precision)[..|head|] == head;
  }

  /** skip_atoi gives a number itself exactly when an int can hold it. */
  lemma IntRange(m: nat)
    requires m < SIZE_SPAN
    ensures Int32(m) == m <==> m < INT_SPAN
  {}

  lemma SignNoDigits(f: Flags, num: int)
    ensures NoDigits(SignOf(f, num))
  {}

  /** What is printed in decimal reads back as the magnitude, whatever the flags, the width and the
      precision, unless the precision is an explicit 0. */
  lemma ReadsBack(f: Flags, num: int, width: int, precision: int)
    requires -INT_SPAN <= num < INT_SPAN && precision != 0
    ensures ReadsAs(Formatted(f, num, 10, width, precision),
                    NumeralStart(f, SignOf(f, num), Digits(Magnitude(f, num), 10, f.large), width, precision),
                    Magnitude(f, num))
  {
    SignNoDigits(f, num);
    DecimalDigits(Magnitude(f, num), f.large);
    DigitsValue(Magnitude(f, num), 10, f.large);
    LaidReadsBack(f, SignOf(f, num), Digits(Magnitude(f, num), 10, f.large), width, precision);
  }

  /** The letters of a numeral are large or small as the flag says. */
  ghost predicate InCase(c: char, large: bool) {
    IsDigit(c) || if large then 'A' <= c <= 'F' else 'a' <= c <= 'f'
  }

  lemma {:induction false} DigitsCase(n: nat, radix: nat, large: bool)
    requires radix == 10 || radix == 16
    ensures forall c :: c in Digits(n, radix, large) ==> InCase(c, large)
  {
    if n >= radix {
      DigitsCase(n / radix, radix, large);
    }
  }

  /** What stands before a number: spaces, then the sign. A '-' is there exactly for a negative number printed
      with its sign, a '+' for one that is not negative with PLUS, a space in the place of a sign with SPACE and
      without PLUS, and nothing else; without padding on the left there are no other spaces. */
  ghost predicate SignRight(f: Flags, num: int, width: int, head: string) {
    && ('-' in head <==> f.sign && num < 0)
    && ('+' in head <==> f.sign && num >= 0 && f.plus)
    && (f.sign && num < 0 ==> head != "" && head[|head| - 1] == '-')
    && (f.sign && num >= 0 && f.plus ==> head != "" && head[|head| - 1] == '+')
    && (f.sign && num >= 0 && !f.plus && f.space ==> head != "" && head[|head| - 1] == ' ')
    && (forall i :: 0 <= i < |head| - 1 ==> head[i] == ' ')
    && (head != "" ==> head[|head| - 1] in "-+ ")
    && (f.left || f.zeropad || width <= 0 ==>
          |head| == if f.sign && (num < 0 || f.plus || f.space) then 1 else 0)
  }

  lemma SignIsRight(f: Flags, num: int, width: int, head: string)
    requires head == Repeat(' ', |head| - |SignOf(f, num)|) + SignOf(f, num)
    requires f.left || f.zeropad || width <= 0 ==> head == SignOf(f, num)
    ensures SignRight(f, num, width, head)
  {
    var sign := SignOf(f, num);
    assert sign != "" ==> head[|head| - 1] == sign[0];
    assert sign == "" ==> forall i :: 0 <= i < |head| ==> head[i] == ' ';
  }

  /** In every base a field is the sign as the flags want it, a numeral of the number in the case they want, and
      spaces behind it with LEFT alone. */
  lemma FieldParts(f: Flags, num: int, base: int, width: int, precision: int) returns (head: string, numeral: string, tail: string)
    requires -INT_SPAN <= num < INT_SPAN && precision != 0
    ensures Formatted(f, num, base, width, precision) == head + numeral + tail && NoDigits(head) && NoDigits(tail)
    ensures SignRight(f, num, width, head) && (forall c :: c in tail ==> c == ' ') && (!f.left ==> tail == "")
    ensures forall c :: c in numeral ==> InCase(c, f.large) && (base == 10 ==> IsDigit(c))
    ensures var v := Value(numeral, if base == 10 then 10 else 16);
            v == if num >= 0 then num else if f.sign then -num else num + SIZE_SPAN
  {
    var digits, sign := Digits(Magnitude(f, num), Radix(base), f.large), SignOf(f, num);
    SignNoDigits(f, num);
    head, tail := LaidParts(f, sign, digits, width, precision);
    numeral := Numeral(f, sign, digits, width, precision);
    NumeralValue(f, sign, digits, width, precision, Radix(base));
    DigitsValue(Magnitude(f, num), Radix(base), f.large);
    DigitsCase(Magnitude(f, num), Radix(base), f.large);
    SignIsRight(f, num, width, head);
    if base == 10 {
      DecimalDigits(Magnitude(f, num), f.large);
    }
  }

  /** A decimal number printed with its sign reads back as itself: the digits say its magnitude, and a '-' stands
      before them exactly when it is negative. Printed without its sign the digits say its 32 bits. */
  lemma SignedReadsBack(f: Flags, num: int, width: int, precision: int) returns (k: nat)
    requires -INT_SPAN <= num < INT_SPAN && precision != 0
    ensures k <= |Formatted(f, num, 10, width, precision)|
    ensures SignRight(f, num, width, Formatted(f, num, 10, width, precision)[..k])
    ensures ReadsSigned(f, Formatted(f, num, 10, width, precision), k, num)
  {
    var head, numeral, tail := FieldParts(f, num, 10, width, precision);
    k := |head|;
    hide Formatted, SignRight, ReadsSigned;
    assert (head + numeral + tail)[..k] == head;
    PartsRead(f, num, width, head, numeral, tail);
  }

  lemma PartsRead(f: Flags, num: int, width: int, head: string, numeral: string, tail: string)
    requires NoDigits(head) && NoDigits(tail) && SignRight(f, num, width, head)
    requires (forall c :: c in tail ==> c == ' ') && (!f.left ==> tail == "") && AllDigits(numeral)
    requires Value(numeral, 10) == if num >= 0 then num else if f.sign then -num else num + SIZE_SPAN
    ensures ReadsSigned(f, head + numeral + tail, |head|, num)
  {
    var out := head + numeral + tail;
    ReadsAt(head, numeral, tail);
    assert out[..|head|] == head;
    assert out[|head| + |numeral|..] == tail;
    assert '-' in out[..|head|] <==> f.sign && num < 0;
  }

  /** The first digits of `out`, from place `k` on, give `num` with the sign before them, or its 32 bits; only
      spaces follow. */
  ghost predicate ReadsSigned(f: Flags, out: string, k: nat, num: int)
    requires k <= |out|
  {
    var end := DigitsEnd(out, k);
    var v: int := Value(out[k..end], 10);
    && NoDigits(out[..k])
    && (f.sign ==> num == if '-' in out[..k] then -v else v)
    && (!f.sign ==> v == if num >= 0 then num else num + SIZE_SPAN)
    && (forall c :: c in out[end..] ==> c == ' ') && (!f.left ==> end == |out|)
  }

  // ---------- Writing numbers ----------

  /** `buf` is `was` but for `out` written from `start` on, as far as it lies before `end`. */
  ghost predicate Written(buf: seq<char>, was: seq<char>, start: nat, end: nat, out: string) {
    && |buf| == |was|
    && forall i :: 0 <= i < |buf| ==>
         buf[i] == if start <= i < start + |out| && i < end then out[i - start] else was[i]
  }

  const NUL: char := '\0'

  function SignString(c: char): string {
    if c == NUL then "" else [c]
  }

  class Printer {
    const buf: array<char>
    const end: nat   // where the buffer ends
    var pos: nat     // where the next character goes

    ghost predicate Valid() {
      end <= buf.Length
    }

    constructor (buf: array<char>, end: nat)
      requires end <= buf.Length
      ensures Valid() && this.buf == buf && this.end == end && pos == 0
    {
      this.buf, this.end, pos := buf, end, 0;
    }

    /** One character, dropped if the buffer is full; the position moves on all the same. */
    method Put(c: char, ghost was: seq<char>, ghost start: nat, ghost out: string)
      requires Valid() && Written(buf[..], was, start, end, out) && pos == start + |out|
      modifies this`pos, buf
      ensures Written(buf[..], was, start, end, out + [c]) && pos == start + |out| + 1
    {
      if pos < end {
        buf[pos] := c;
      }
      pos := pos + 1;
    }

    /** The padding loop: `size` copies of `c`, if it is positive. */
    method Pad(c: char, size: int, ghost was: seq<char>, ghost start: nat, ghost out: string) returns (left: int)
      requires Valid() && Written(buf[..], was, start, end, out) && pos == start + |out|
      modifies this`pos, buf
      ensures Written(buf[..], was, start, end, out + Repeat(c, size)) && pos == start + |out + Repeat(c, size)|
      ensures left == (if size > 0 then -1 else size - 1)
    {
      left := size;
      ghost var done := 0;
      while left > 0
        invariant 0 <= done && left == size - done && (size <= 0 ==> done == 0) && (size > 0 ==> left >= 0)
        invariant Written(buf[..], was, start, end, out + Repeat(c, done)) && pos == start + |out + Repeat(c, done)|
      {
        Put(c, was, start, out + Repeat(c, done));
        assert Repeat(c, done + 1) == Repeat(c, done) + [c];
        assert out + Repeat(c, done + 1) == (out + Repeat(c, done)) + [c];
        left, done := left - 1, done + 1;
      }
      assert Repeat(c, size) == Repeat(c, done);
      left := left - 1;
    }

    /** divide: one digit off a 32-bit number. */
    static method Divide(n: nat, base: int) returns (digit: nat, rest: nat)
      ensures digit == n % Radix(base) && rest == n / Radix(base)
    {
      if base == 10 {
        digit, rest := n % 10, n / 10;
      } else {
        digit, rest := n % 16, n / 16;
      }
    }

    /** The digits of `num`, last first, in the temporary buffer of 16 characters. */
    static method DigitsOf(num: nat, base: int, large: bool) returns (tmp: array<char>, i: nat)
      requires num < SIZE_SPAN
      ensures fresh(tmp) && 0 < i <= tmp.Length && Reversed(tmp[..i]) == Digits(num, Radix(base), large)
    {
      tmp := new char[16](_ => ' ');
      i := 0;
      if num == 0 {
        tmp[0], i := '0', 1;
        return;
      }
      var n := num;
      assert Reversed(tmp[..0]) == "";
      hide Reversed, DigitChar, Completes;
      DigitsNone(num, Radix(base), large);
      while n != 0
        invariant i <= 10 && (i == 0 ==> n == num)
        invariant Completes(num, n, Radix(base), large, Reversed(tmp[..i]))
        decreases n
      {
        var digit, rest := Divide(n, base);
        ghost var was := tmp[..i];
        DigitsMore(num, n, Radix(base), large, Reversed(was));
        tmp[i] := DigitChar(digit, large);
        assert tmp[..i + 1] == was + [DigitChar(digit, large)];
        ReversedMore(was, DigitChar(digit, large));
        i, n := i + 1, rest;
      }
      DigitsAll(num, Radix(base), large, Reversed(tmp[..i]));
    }

    /** The sign character, or a null, and what is left to print. */
    static method SignAndRest(num: int, f: Flags) returns (sign: char, n: nat)
      requires -INT_SPAN <= num < INT_SPAN
      ensures n == Magnitude(f, num) && SignString(sign) == SignOf(f, num)
    {
      sign, n := NUL, if num < 0 then num + SIZE_SPAN else num;
      if f.sign {
        if num < 0 {
          sign, n := '-', -num;
        } else if f.plus {
          sign := '+';
        } else if f.space {
          sign := ' ';
        }
      }
    }

    /** The padding to the left, the sign, and the padding behind it. */
    method PutLeading(sign: char, room: int, zeropad: bool, left: bool, ghost was: seq<char>, ghost start: nat)
      returns (size: int)
      requires Valid() && Written(buf[..], was, start, end, "") && pos == start && !(left && zeropad)
      modifies this`pos, buf
      ensures var lead := Leading(SignString(sign), room - |SignString(sign)|, zeropad, left);
              Written(buf[..], was, start, end, lead) && pos == start + |lead|
      ensures if left then size == room - |SignString(sign)| else size < 0
    {
      size := room;
      ghost var out := "";
      if !zeropad && !left {
        if sign != NUL && size > 0 {
          size := size - 1;
        }
        out := out + Repeat(' ', size);
        size := Pad(' ', size, was, start, "");
      }
      if sign != NUL {
        Put(sign, was, start, out);
        out := out + [sign];
        size := size - 1;
      }
      if !left {
        ghost var filling := Repeat(if zeropad then '0' else ' ', size);
        size := Pad(if zeropad then '0' else ' ', size, was, start, out);
        out := out + filling;
      }
      assert out == Leading(SignString(sign), room - |SignString(sign)|, zeropad, left);
    }

    /** The zeros, the digits and the padding to the right. */
    method PutTrailing(tmp: array<char>, i: nat, precision: int, minDigits: int, size: int,
                       ghost was: seq<char>, ghost start: nat, ghost out: string)
      requires Valid() && Written(buf[..], was, start, end, out) && pos == start + |out|
      requires 0 < i <= tmp.Length && tmp != buf && precision == Larger(i, minDigits)
      modifies this`pos, buf
      ensures var rest := Body(Reversed(tmp[..i]), minDigits) + Repeat(' ', size);
              Written(buf[..], was, start, end, out + rest) && pos == start + |out + rest|
    {
      ghost var digits, zeros := Reversed(tmp[..i]), Repeat('0', precision - i);
      assert zeros == Repeat('0', minDigits - |digits|);
      var _ := Pad('0', precision - i, was, start, out);
      if minDigits != 0 {
        PutReversed(tmp, i, was, start, out + zeros);
        assert (out + zeros) + digits == out + Body(digits, minDigits);
      } else {
        assert out + zeros == out + Body(digits, minDigits);
      }
      var _ := Pad(' ', size, was, start, out + Body(digits, minDigits));
      assert (out + Body(digits, minDigits)) + Repeat(' ', size) == out + (Body(digits, minDigits) + Repeat(' ', size));
    }

    /** print_number: the formatted number from the current position on, and its length added to the
        position, however short the buffer is. */
    method PrintNumber(num: int, base: int, width: int, minDigits: int, f: Flags)
      requires Valid() && -INT_SPAN <= num < INT_SPAN
      modifies this`pos, buf
      ensures Written(buf[..], old(buf[..]), old(pos), end, Formatted(f, num, base, width, minDigits))
      ensures pos == old(pos) + |Formatted(f, num, base, width, minDigits)|
    {
      var sign, n := SignAndRest(num, f);
      var tmp, i := DigitsOf(n, base, f.large);
      PrintDigits(sign, tmp, i, width, minDigits, f);
    }

    method PrintDigits(sign: char, tmp: array<char>, i: nat, width: int, minDigits: int, f: Flags)
      requires Valid() && 0 < i <= tmp.Length && tmp != buf
      modifies this`pos, buf
      ensures var out := Laid(f, SignString(sign), Reversed(tmp[..i]), width, minDigits);
              Written(buf[..], old(buf[..]), old(pos), end, out) && pos == old(pos) + |out|
    {
      ghost var was, start := buf[..], pos;
      ghost var digits := Reversed(tmp[..i]);
      var precision := minDigits;
      if i > precision {
        precision := i;
      }
      var zeropad := f.zeropad && !f.left;
      hide Reversed, Laid, Leading, Repeat, Body;
      var size := PutLeading(sign, width - precision, zeropad, f.left, was, start);
      LaidSplit(f, SignString(sign), digits, width, minDigits, size);
      assert Reversed(tmp[..i]) == digits;
      ghost var lead := Leading(SignString(sign), width - precision - |SignString(sign)|, zeropad, f.left);
      hide SignString, Written;
      PutTrailing(tmp, i, precision, minDigits, size, was, start, lead);
    }

    /** The loop that empties the temporary buffer. */
    method PutReversed(tmp: array<char>, count: nat, ghost was: seq<char>, ghost start: nat, ghost out: string)
      requires Valid() && Written(buf[..], was, start, end, out) && pos == start + |out|
      requires count <= tmp.Length && tmp != buf
      modifies this`pos, buf
      ensures Written(buf[..], was, start, end, out + Reversed(tmp[..count]))
      ensures pos == start + |out + Reversed(tmp[..count])|
    {
      hide Written;
      var i := count;
      ghost var done := "";
      assert out + done == out;
      while i > 0
        invariant 0 <= i <= count && Reversed(tmp[..count]) == done + Reversed(tmp[..i])
        invariant Written(buf[..], was, start, end, out + done) && pos == start + |out + done|
      {
        Put(tmp[i - 1], was, start, out + done);
        ghost var c := tmp[i - 1];
        assert tmp[..i] == tmp[..i - 1] + [c];
        ReversedMore(tmp[..i - 1], c);
        assert out + (done + [c]) == (out + done) + [c];
        done := done + [c];
        i := i - 1;
      }
      assert Reversed(tmp[..0]) == "" && done == Reversed(tmp[..count]);
    }
  }

  function Reversed(s: string): (r: string)
    ensures |r| == |s|
  {
    if s == [] then [] else [s[|s| - 1]] + Reversed(s[..|s| - 1])
  }

  lemma ReversedMore(s: string, c: char)
    ensures Reversed(s + [c]) == [c] + Reversed(s)
  {
    assert (s + [c])[..|s|] == s;
  }

  /** `later` ends the numeral of `num`, and the numeral of `n`, when not 0, is the rest of it. */
  ghost predicate Completes(num: nat, n: nat, radix: nat, large: bool, later: string)
    requires radix == 10 || radix == 16
  {
    Digits(num, radix, large) == (if n == 0 then "" else Digits(n, radix, large)) + later
  }

  lemma DigitsNone(num: nat, radix: nat, large: bool)
    requires (radix == 10 || radix == 16) && num > 0
    ensures Completes(num, num, radix, large, "")
  {}

  lemma DigitsMore(num: nat, n: nat, radix: nat, large: bool, later: string)
    requires 0 < n && (radix == 10 || radix == 16) && Completes(num, n, radix, large, later) && num < SIZE_SPAN
    ensures Completes(num, n / radix, radix, large, [DigitChar(n % radix, large)] + later) && |later| < 10
  {
    DigitsFit(num, radix, large);
    LastDigit(n, radix, large);
    hide Digits, DigitChar;
  }

  lemma LastDigit(n: nat, radix: nat, large: bool)
    requires 0 < n && (radix == 10 || radix == 16)
    ensures Digits(n, radix, large) == (if n / radix == 0 then "" else Digits(n / radix, radix, large)) + [DigitChar(n % radix, large)]
  {
    if radix == 10 {
      assert n / 10 == 0 <==> n < 10;
    } else {
      assert n / 16 == 0 <==> n < 16;
    }
  }

  lemma DigitsAll(num: nat, radix: nat, large: bool, later: string)
    requires (radix == 10 || radix == 16) && Completes(num, 0, radix, large, later)
    ensures later == Digits(num, radix, large)
  {}
}
