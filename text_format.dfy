/**
 * The pieces of JavaScript's string handling the extension relies on:
 * `Number.prototype.toString(radix)`, `String.prototype.toUpperCase`,
 * `toLowerCase`, `padStart`, `padEnd` and `repeat`, restricted to the ASCII
 * text they are applied to. Each formatter has a parser beside it, and the
 * lemmas show the parser recovers the number.
 */
module TextFormat {
  import opened Results

  /** The digit `d` as `toString(radix)` writes it: 0-9, then lower-case letters. */
  function DigitChar(d: nat): (c: char)
    requires d < 36
    ensures DigitValue(c) == Some(d)
  {
    if d < 10 then ('0' as int + d) as char else ('a' as int + (d - 10)) as char
  }

  /** The value of a digit character in either case, or None for a non-digit. */
  function DigitValue(c: char): Option<nat> {
    if '0' <= c <= '9' then Some(c as int - '0' as int)
    else if 'a' <= c <= 'z' then Some(c as int - 'a' as int + 10)
    else if 'A' <= c <= 'Z' then Some(c as int - 'A' as int + 10)
    else None
  }

  /** The number a string of digits in `radix` denotes; the empty string denotes 0. */
  function DigitsValue(s: string, radix: nat): Option<nat>
    requires 2 <= radix <= 36
  {
    if s == [] then Some(0)
    else
      match (DigitsValue(s[..|s| - 1], radix), DigitValue(s[|s| - 1]))
      case (Some(high), Some(d)) => if d < radix then Some(high * radix + d) else None
      case _ => None
  }

  /** Reads a non-empty string of digits in `radix` (either case) back into a number. */
  function ParseRadix(s: string, radix: nat): Option<nat>
    requires 2 <= radix <= 36
  {
    if s == [] then None else DigitsValue(s, radix)
  }

  /** `n.toString(radix)` for a non-negative integer: no leading zeros, lower-case letters. */
  function NumberToString(n: nat, radix: nat): (s: string)
    requires 2 <= radix <= 36
    ensures s != []
    decreases n
  {
    if n < radix then [DigitChar(n)]
    else
      DivShrinks(n, radix);
      NumberToString(n / radix, radix) + [DigitChar(n % radix)]
  }

  /** Dividing by a radix shrinks a number at least as large as the radix; the remainder is a digit. */
  lemma DivShrinks(n: nat, radix: nat)
    requires 2 <= radix <= n
    ensures n / radix < n && n % radix < radix
  {
    var q := n / radix;
    DivMod(n, radix);
    MulMonotone(2, radix, q);
  }

  /** `toString(radix)` and the parser are inverse: the text reads back as the number. */
  lemma {:induction false} NumberToStringReadsBack(n: nat, radix: nat)
    requires 2 <= radix <= 36
    ensures ParseRadix(NumberToString(n, radix), radix) == Some(n)
    decreases n
  {
    if n < radix {
      SingleDigit(n, radix);
    } else {
      DivShrinks(n, radix);
      var high := NumberToString(n / radix, radix);
      NumberToStringReadsBack(n / radix, radix);
      DigitStep(high, n, radix);
      assert NumberToString(n, radix) == high + [DigitChar(n % radix)];
    }
  }

  /** A digit as `toString(radix)` writes one: 0-9 or a lower-case letter, worth less than the radix. */
  predicate LowerDigit(c: char, radix: nat) {
    ('0' <= c <= '9' || 'a' <= c <= 'z') && DigitValue(c).value < radix
  }

  /** The text `toString(radix)` produces: lower-case digits, and no leading zero unless the text is "0". */
  predicate Canonical(s: string, radix: nat) {
    && s != []
    && (forall i :: 0 <= i < |s| ==> LowerDigit(s[i], radix))
    && (|s| == 1 || s[0] != '0')
  }

  /** `toString(radix)` writes canonical text, and it starts with '0' only for 0. */
  lemma {:induction false} NumberToStringCanonical(n: nat, radix: nat)
    requires 2 <= radix <= 36
    ensures Canonical(NumberToString(n, radix), radix)
    ensures NumberToString(n, radix)[0] == '0' <==> n == 0
    decreases n
  {
    if n < radix {
      DigitCharLower(n, radix);
    } else {
      DivShrinks(n, radix);
      var high := NumberToString(n / radix, radix);
      var s := high + [DigitChar(n % radix)];
      NumberToStringCanonical(n / radix, radix);
      DigitCharLower(n % radix, radix);
      assert NumberToString(n, radix) == s;
      forall i | 0 <= i < |s| ensures LowerDigit(s[i], radix) {
        if i < |high| {
          assert s[i] == high[i];
        }
      }
      assert s[0] == high[0];
    }
  }

  /** `DigitChar` writes a lower-case digit. */
  lemma DigitCharLower(d: nat, radix: nat)
    requires d < radix <= 36
    ensures LowerDigit(DigitChar(d), radix) && (DigitChar(d) == '0' <==> d == 0)
  {
  }

  /**
   * Canonical text is the only text of its value: whatever is canonical and
   * reads back as `n` is `n.toString(radix)`.
   */
  lemma {:induction false} CanonicalUnique(s: string, n: nat, radix: nat)
    requires 2 <= radix <= 36
    requires Canonical(s, radix) && ParseRadix(s, radix) == Some(n)
    ensures s == NumberToString(n, radix)
    decreases |s|
  {
    var c := s[|s| - 1];
    var d := DigitValue(c).value;
    assert LowerDigit(c, radix);
    LowerDigitChar(c, radix);
    if |s| == 1 {
      assert DigitsValue(s[..0], radix) == Some(0);
      assert n == d;
    } else {
      var high := s[..|s| - 1];
      var h := DigitsValue(high, radix).value;
      assert n == h * radix + d;
      CanonicalFront(s, radix);
      CanonicalUnique(high, h, radix);
      LeadingDigitPositive(high, radix);
      SplitDigit(n, h, d, radix);
      assert s == high + [c];
    }
  }

  /** A lower-case digit is the character `DigitChar` writes for its value. */
  lemma LowerDigitChar(c: char, radix: nat)
    requires LowerDigit(c, radix)
    ensures DigitValue(c).value < 36 && DigitChar(DigitValue(c).value) == c
  {
  }

  /** Canonical text that does not start with '0' denotes a positive number. */
  lemma {:induction false} LeadingDigitPositive(s: string, radix: nat)
    requires 2 <= radix <= 36
    requires Canonical(s, radix) && s[0] != '0'
    ensures DigitsValue(s, radix).Some? && DigitsValue(s, radix).value > 0
    decreases |s|
  {
    var c := s[|s| - 1];
    assert LowerDigit(c, radix);
    var d := DigitValue(c).value;
    if |s| == 1 {
      assert DigitsValue(s[..0], radix) == Some(0);
      assert DigitsValue(s, radix) == Some(0 * radix + d);
    } else {
      var high := s[..|s| - 1];
      CanonicalFront(s, radix);
      LeadingDigitPositive(high, radix);
      var h := DigitsValue(high, radix).value;
      assert DigitsValue(s, radix) == Some(h * radix + d);
      MulMonotone(1, h, radix);
    }
  }

  /** Dropping the last digit of canonical text of two or more digits leaves canonical text with the same first digit. */
  lemma CanonicalFront(s: string, radix: nat)
    requires Canonical(s, radix) && |s| > 1
    ensures Canonical(s[..|s| - 1], radix) && s[..|s| - 1][0] == s[0]
  {
    var high := s[..|s| - 1];
    forall i | 0 <= i < |high| ensures LowerDigit(high[i], radix) {
      assert high[i] == s[i];
    }
  }

  /** A number written as `h * radix + d` with a digit `d` and `h > 0` splits back into `h` and `d`. */
  lemma SplitDigit(n: nat, h: nat, d: nat, radix: nat)
    requires 2 <= radix && d < radix && h > 0 && n == h * radix + d
    ensures n >= radix && n / radix == h && n % radix == d
  {
    assert h * radix >= radix by {
      MulMonotone(1, h, radix);
    }
    var q, r := n / radix, n % radix;
    DivMod(n, radix);
    if q > h {
      MulMonotone(h + 1, q, radix);
    } else if q < h {
      MulMonotone(q + 1, h, radix);
    }
  }

  lemma MulMonotone(a: nat, b: nat, m: nat)
    requires a <= b
    ensures a * m <= b * m
  {
  }

  /** A single digit reads back as its value. */
  lemma SingleDigit(d: nat, radix: nat)
    requires 2 <= radix <= 36 && d < radix
    ensures ParseRadix([DigitChar(d)], radix) == Some(d)
  {
    DigitsAppend([], DigitChar(d), radix);
    assert [] + [DigitChar(d)] == [DigitChar(d)];
  }

  /** The last digit of `n` appended to the digits of `n / radix` gives the digits of `n`. */
  lemma DigitStep(high: string, n: nat, radix: nat)
    requires 2 <= radix <= 36
    requires ParseRadix(high, radix) == Some(n / radix)
    ensures ParseRadix(high + [DigitChar(n % radix)], radix) == Some(n)
  {
    DigitsAppend(high, DigitChar(n % radix), radix);
    DivMod(n, radix);
  }

  /** Appending a digit multiplies the value by the radix and adds the digit. */
  lemma DigitsAppend(high: string, c: char, radix: nat)
    requires 2 <= radix <= 36
    requires DigitsValue(high, radix).Some?
    requires DigitValue(c).Some? && DigitValue(c).value < radix
    ensures DigitsValue(high + [c], radix) ==
      Some(DigitsValue(high, radix).value * radix + DigitValue(c).value)
  {
    DigitsValueSnoc(high, c, radix);
  }

  /** The value of `high + [c]` is computed from the value of `high` and the digit `c`. */
  lemma DigitsValueSnoc(high: string, c: char, radix: nat)
    requires 2 <= radix <= 36
    ensures var h, d := DigitsValue(high, radix), DigitValue(c);
      DigitsValue(high + [c], radix) ==
        if h.Some? && d.Some? && d.value < radix then Some(h.value * radix + d.value) else None
  {
    var s := high + [c];
    assert s[..|s| - 1] == high && s[|s| - 1] == c;
  }

  lemma DivMod(n: nat, radix: nat)
    requires radix > 0
    ensures (n / radix) * radix + n % radix == n
  {
  }

  function Pow16(k: nat): (p: nat)
    ensures p >= 1
  {
    if k == 0 then 1 else 16 * Pow16(k - 1)
  }

  predicate IsUpperHexDigit(c: char) {
    '0' <= c <= '9' || 'A' <= c <= 'F'
  }

  function UpperChar(c: char): char {
    if 'a' <= c <= 'z' then (c as int - 32) as char else c
  }

  function LowerChar(c: char): char {
    if 'A' <= c <= 'Z' then (c as int + 32) as char else c
  }

  /** `toUpperCase` on ASCII text. */
  function Upper(s: string): (r: string)
    ensures |r| == |s|
    ensures forall i :: 0 <= i < |s| ==> r[i] == UpperChar(s[i])
  {
    seq(|s|, i requires 0 <= i < |s| => UpperChar(s[i]))
  }

  /** `toLowerCase` on ASCII text. */
  function Lower(s: string): (r: string)
    ensures |r| == |s|
    ensures forall i :: 0 <= i < |s| ==> r[i] == LowerChar(s[i])
  {
    seq(|s|, i requires 0 <= i < |s| => LowerChar(s[i]))
  }

  /** `c.repeat(n)` for a one-character string `c`. */
  function Repeat(c: char, n: nat): (r: string)
    ensures |r| == n
    ensures forall i :: 0 <= i < n ==> r[i] == c
  {
    seq(n, i => c)
  }

  /** `s.padStart(width, c)`: fills on the left up to `width`, never truncates. */
  function PadStart(s: string, width: nat, c: char): (r: string)
    ensures |r| == if |s| >= width then |s| else width
    ensures r[|r| - |s|..] == s
    ensures forall i :: 0 <= i < |r| - |s| ==> r[i] == c
  {
    if |s| >= width then s else Repeat(c, width - |s|) + s
  }

  /** `s.padEnd(width, c)`: fills on the right up to `width`, never truncates. */
  function PadEnd(s: string, width: nat, c: char): (r: string)
    ensures |r| == if |s| >= width then |s| else width
    ensures forall i :: 0 <= i < |s| ==> r[i] == s[i]
    ensures forall i :: |s| <= i < |r| ==> r[i] == c
  {
    if |s| >= width then s else s + Repeat(c, width - |s|)
  }

  /** Upper-casing a string of digits does not change the number it denotes. */
  lemma {:induction false} DigitsValueUpper(s: string, radix: nat)
    requires 2 <= radix <= 36
    ensures DigitsValue(Upper(s), radix) == DigitsValue(s, radix)
    decreases |s|
  {
    if s != [] {
      var u := Upper(s);
      assert u[..|u| - 1] == Upper(s[..|s| - 1]);
      DigitsValueUpper(s[..|s| - 1], radix);
      var c := s[|s| - 1];
      assert DigitValue(UpperChar(c)) == DigitValue(c);
    }
  }

  /** Leading '0' characters do not change the number a digit string denotes. */
  lemma {:induction false} DigitsValueLeadingZeros(k: nat, s: string, radix: nat)
    requires 2 <= radix <= 36
    ensures DigitsValue(Repeat('0', k) + s, radix) == DigitsValue(s, radix)
    decreases |s|, k
  {
    var z := Repeat('0', k);
    if s == [] {
      assert z + s == z;
      if k > 0 {
        assert z[..k - 1] == Repeat('0', k - 1);
        DigitsValueLeadingZeros(k - 1, [], radix);
        assert Repeat('0', k - 1) + [] == Repeat('0', k - 1);
      }
    } else {
      var t := z + s;
      assert t[..|t| - 1] == z + s[..|s| - 1];
      assert t[|t| - 1] == s[|s| - 1];
      DigitsValueLeadingZeros(k, s[..|s| - 1], radix);
    }
  }

  /** Zero-padding on the left keeps the hexadecimal value. */
  lemma PadStartValue(s: string, width: nat)
    ensures DigitsValue(PadStart(s, width, '0'), 16) == DigitsValue(s, 16)
  {
    if |s| < width {
      DigitsValueLeadingZeros(width - |s|, s, 16);
    }
  }

  /**
   * `n.toString(16).toUpperCase().padStart(width, '0')`, built one digit at a
   * time from the low end (see `PaddedHexIsPadStart`).
   */
  function PaddedHex(n: nat, width: nat): (r: string)
    decreases n + width
  {
    if n < 16 && width <= 1 then [HexDigit(n)]
    else PaddedHex(n / 16, if width > 0 then width - 1 else 0) + [HexDigit(n % 16)]
  }

  /** Padding a string that ends in `c` is padding the rest to one less, then `c`. */
  lemma PadStartAppend(s: string, c: char, width: nat, fill: char)
    ensures PadStart(s + [c], width, fill) == PadStart(s, if width > 0 then width - 1 else 0, fill) + [c]
  {
    if |s| + 1 < width {
      var pad := Repeat(fill, width - |s| - 1);
      assert PadStart(s + [c], width, fill) == pad + (s + [c]);
      assert PadStart(s, width - 1, fill) == pad + s;
      assert pad + (s + [c]) == (pad + s) + [c];
    } else {
      assert PadStart(s + [c], width, fill) == s + [c];
      assert PadStart(s, if width > 0 then width - 1 else 0, fill) == s;
    }
  }

  /** Zero is written as `width` zeros, and at least one. */
  lemma {:induction false} PaddedZeros(width: nat)
    ensures PaddedHex(0, width) == Repeat('0', if width > 1 then width else 1)
  {
    if width > 1 {
      PaddedZeros(width - 1);
      assert Repeat('0', width) == Repeat('0', if width - 1 > 1 then width - 1 else 1) + ['0'];
    }
  }

  /** A number below 16 is one digit, in upper case. */
  lemma UpperDigit(n: nat)
    requires n < 16
    ensures Upper(NumberToString(n, 16)) == [HexDigit(n)]
  {
    assert NumberToString(n, 16) == [DigitChar(n)];
  }

  /** A single digit padded past one place: zeros, then the digit. */
  lemma PaddedDigitWide(n: nat, width: nat)
    requires n < 16 && width > 1
    ensures PaddedHex(n, width) == Repeat('0', width - 1) + [HexDigit(n)]
    ensures PadStart([HexDigit(n)], width, '0') == Repeat('0', width - 1) + [HexDigit(n)]
  {
    PaddedZeros(width - 1);
    assert n / 16 == 0 && n % 16 == n;
  }

  /** A single digit padded to `width`. */
  lemma PaddedDigit(n: nat, width: nat)
    requires n < 16
    ensures PaddedHex(n, width) == PadStart(Upper(NumberToString(n, 16)), width, '0')
  {
    UpperDigit(n);
    if width > 1 {
      PaddedDigitWide(n, width);
    }
  }

  /** The digit-by-digit text is the upper-cased, zero-padded `toString(16)`. */
  lemma {:induction false} PaddedHexIsPadStart(n: nat, width: nat)
    ensures PaddedHex(n, width) == PadStart(Upper(NumberToString(n, 16)), width, '0')
    decreases n
  {
    if n < 16 {
      PaddedDigit(n, width);
    } else {
      var w := if width > 0 then width - 1 else 0;
      PaddedHexIsPadStart(n / 16, w);
      UpperLastDigit(n);
      PadStartAppend(Upper(NumberToString(n / 16, 16)), HexDigit(n % 16), width, '0');
    }
  }

  /** The upper-cased digits of `n` are those of `n / 16`, then the digit of `n % 16`. */
  lemma UpperLastDigit(n: nat)
    requires n >= 16
    ensures Upper(NumberToString(n, 16)) == Upper(NumberToString(n / 16, 16)) + [HexDigit(n % 16)]
  {
    var high := NumberToString(n / 16, 16);
    assert NumberToString(n, 16) == high + [DigitChar(n % 16)];
  }

  /** The digits take at least `width` places and one, exactly `width` when `n` is below 16^width. */
  lemma {:induction false} PaddedHexLength(n: nat, width: nat)
    ensures |PaddedHex(n, width)| >= width && |PaddedHex(n, width)| >= 1
    ensures width >= 1 ==> (|PaddedHex(n, width)| == width <==> n < Pow16(width))
    decreases n + width
  {
    if !(n < 16 && width <= 1) {
      var w := if width > 0 then width - 1 else 0;
      PaddedHexLength(n / 16, w);
      if w >= 1 {
        assert n / 16 < Pow16(w) <==> n < Pow16(width);
      }
    }
  }

  /**
   * The address text used throughout the extension:
   * `0x${n.toString(16).toUpperCase().padStart(8, '0')}` (`AddressTextIsPadded`).
   */
  function AddressText(n: nat): string {
    "0x" + PaddedHex(n, 8)
  }

  /** The text is "0x" and at least eight digits, exactly eight when the number fits in 32 bits. */
  lemma AddressTextLength(n: nat)
    ensures var r := AddressText(n);
      && |r| >= 10 && r[..2] == "0x"
      && (|r| == 10 <==> n < 0x1_0000_0000)
  {
    PaddedHexLength(n, 8);
    assert Pow16(8) == 0x1_0000_0000;
  }

  lemma AddressTextIsPadded(n: nat)
    ensures AddressText(n) == "0x" + PadStart(Upper(NumberToString(n, 16)), 8, '0')
  {
    PaddedHexIsPadStart(n, 8);
  }

  /** After "0x" come upper-case hex digits that read back as the number. */
  lemma AddressTextReadsBack(n: nat)
    ensures var r := AddressText(n);
      && ParseRadix(r[2..], 16) == Some(n)
      && forall i :: 2 <= i < |r| ==> IsUpperHexDigit(r[i])
  {
    var r := AddressText(n);
    var padded := PadStart(Upper(NumberToString(n, 16)), 8, '0');
    AddressTextLength(n);
    AddressTextIsPadded(n);
    PaddedHexFacts(n, 8);
    assert r[2..] == padded;
    forall i | 2 <= i < |r|
      ensures IsUpperHexDigit(r[i])
    {
      assert r[i] == padded[i - 2];
    }
  }

  /** The zero-padded upper-case hexadecimal text of `n` reads back as `n` and uses only hex digits. */
  lemma PaddedHexFacts(n: nat, width: nat)
    ensures var padded := PadStart(Upper(NumberToString(n, 16)), width, '0');
      && ParseRadix(padded, 16) == Some(n)
      && (forall i :: 0 <= i < |padded| ==> IsUpperHexDigit(padded[i]))
  {
    var digits := NumberToString(n, 16);
    var upper := Upper(digits);
    var padded := PadStart(upper, width, '0');
    NumberToStringReadsBack(n, 16);
    DigitsValueUpper(digits, 16);
    PadStartValue(upper, width);
    HexDigitsUpper(n);
    forall i | 0 <= i < |padded| ensures IsUpperHexDigit(padded[i]) {
      if i >= |padded| - |upper| {
        assert padded[i] == upper[i - (|padded| - |upper|)];
      }
    }
  }

  /** The upper-cased hexadecimal form of a number uses only 0-9 and A-F. */
  lemma {:induction false} HexDigitsUpper(n: nat)
    ensures forall i :: 0 <= i < |NumberToString(n, 16)| ==>
      IsUpperHexDigit(UpperChar(NumberToString(n, 16)[i]))
    decreases n
  {
    if n >= 16 {
      HexDigitsUpper(n / 16);
    }
  }

  /** An upper-case hexadecimal digit. */
  function HexDigit(d: nat): char
    requires d < 16
  {
    if d < 10 then ('0' as int + d) as char else ('A' as int + (d - 10)) as char
  }

  /** The two upper-case hex digits of a byte, high nibble first. */
  function ByteHex(b: nat): (r: string)
    requires b < 256
    ensures |r| == 2
  {
    [HexDigit(b / 16), HexDigit(b % 16)]
  }

  /** `ByteHex` is what `b.toString(16).toUpperCase().padStart(2, '0')` gives. */
  lemma ByteHexIsPadded(b: nat)
    requires b < 256
    ensures ByteHex(b) == PadStart(Upper(NumberToString(b, 16)), 2, '0')
  {
    var digits := NumberToString(b, 16);
    if b < 16 {
      assert digits == [DigitChar(b)];
      assert Upper(digits) == [HexDigit(b)];
    } else {
      assert NumberToString(b / 16, 16) == [DigitChar(b / 16)];
      assert digits == [DigitChar(b / 16), DigitChar(b % 16)];
      assert Upper(digits) == [HexDigit(b / 16), HexDigit(b % 16)];
    }
  }

  /** The two digits of a byte are upper-case hex digits that read back as the byte. */
  lemma ByteHexReadsBack(b: nat)
    requires b < 256
    ensures ParseRadix(ByteHex(b), 16) == Some(b)
    ensures IsUpperHexDigit(ByteHex(b)[0]) && IsUpperHexDigit(ByteHex(b)[1])
  {
    ByteHexIsPadded(b);
    PaddedHexFacts(b, 2);
  }
}
