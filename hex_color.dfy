/**
 * The hex notation of the colour report: '#{:02x}{:02x}{:02x}' applied to a
 * pixel's red, green and blue channels, which is the `#rrggbb` form of
 * section 4.2.1 of CSS Color Module Level 3.
 *
 * The `{:02x}` conversion is modelled for every non-negative integer (lower-case
 * hexadecimal digits, no leading zeros, zero-padded to width two), and a decoder
 * for the `#rrggbb` form is given as its inverse.
 */
module HexColor {
  import opened Wrappers
  import opened Pixel

  /** Characters `{:02x}` produces: '0'-'9' and 'a'-'f'. */
  predicate IsLowerHexDigit(c: char) {
    '0' <= c <= '9' || 'a' <= c <= 'f'
  }

  /** Characters a reader of the `#rrggbb` form accepts (the notation ignores case). */
  predicate IsHexDigit(c: char) {
    IsLowerHexDigit(c) || 'A' <= c <= 'F'
  }

  predicate AllLowerHexDigits(s: string) {
    forall i :: 0 <= i < |s| ==> IsLowerHexDigit(s[i])
  }

  predicate AllHexDigits(s: string) {
    forall i :: 0 <= i < |s| ==> IsHexDigit(s[i])
  }

  /** The value of one hexadecimal digit. */
  function DigitValue(c: char): (v: nat)
    requires IsHexDigit(c)
    ensures v < 16
  {
    if '0' <= c <= '9' then c as int - '0' as int
    else if 'a' <= c <= 'f' then c as int - 'a' as int + 10
    else c as int - 'A' as int + 10
  }

  /** The lower-case digit for a value below sixteen. */
  function HexDigit(d: nat): (c: char)
    requires d < 16
    ensures IsLowerHexDigit(c) && DigitValue(c) == d
    ensures c == '0' <==> d == 0
  {
    if d < 10 then ('0' as int + d) as char else ('a' as int + d - 10) as char
  }

  /** A lower-case digit is the digit of its own value. */
  lemma HexDigitOfValue(c: char)
    requires IsLowerHexDigit(c)
    ensures HexDigit(DigitValue(c)) == c
  {
  }

  /** The number a string of hexadecimal digits denotes, most significant first. */
  function HexValue(s: string): nat
    requires AllHexDigits(s)
  {
    if s == [] then 0 else HexValue(s[..|s| - 1]) * 16 + DigitValue(s[|s| - 1])
  }

  /** Python's `format(n, 'x')`: the hexadecimal digits of `n`, without leading zeros. */
  function HexNumeral(n: nat): (s: string)
    ensures |s| >= 1 && AllLowerHexDigits(s) && HexValue(s) == n
    ensures s[0] == '0' <==> n == 0
    ensures |s| == 1 <==> n < 16
    ensures |s| <= 2 <==> n < 256
    decreases n
  {
    if n < 16 then [HexDigit(n)]
    else
      var front := HexNumeral(n / 16);
      var s := front + [HexDigit(n % 16)];
      assert s[..|s| - 1] == front;
      s
  }

  /** Python's `'{:02x}'.format(n)`: the hexadecimal numeral, zero-padded to two characters. */
  function Format02x(n: nat): (s: string)
    ensures AllLowerHexDigits(s) && HexValue(s) == n
    ensures |s| >= 2
    ensures |s| == 2 <==> n < 256
    ensures |s| > 2 ==> s[0] != '0'
  {
    var digits := HexNumeral(n);
    if |digits| < 2 then
      var s := ['0'] + digits;
      assert s[..|s| - 1] == ['0'];
      s
    else digits
  }

  /** A byte is written as its high digit then its low digit. */
  lemma Format02xOfByte(n: nat)
    requires n < 256
    ensures Format02x(n) == [HexDigit(n / 16), HexDigit(n % 16)]
  {
    if n >= 16 {
      assert HexNumeral(n / 16) == [HexDigit(n / 16)];
    }
  }

  /** A two-digit group denotes sixteen times its first digit plus its second. */
  lemma HexValueOfPair(p: string)
    requires |p| == 2 && AllHexDigits(p)
    ensures HexValue(p) == DigitValue(p[0]) * 16 + DigitValue(p[1])
  {
    assert p[..1][..0] == [];
    assert HexValue(p[..1]) == DigitValue(p[0]);
  }

  /** Two lower-case digits are what `{:02x}` prints for the value they denote. */
  lemma Format02xOfPair(p: string)
    requires |p| == 2 && AllLowerHexDigits(p)
    ensures HexValue(p) < 256 && Format02x(HexValue(p)) == p
  {
    var n := HexValue(p);
    HexValueOfPair(p);
    assert n / 16 == DigitValue(p[0]) && n % 16 == DigitValue(p[1]);
    Format02xOfByte(n);
    HexDigitOfValue(p[0]);
    HexDigitOfValue(p[1]);
  }

  lemma LowerConcat(a: string, b: string)
    requires AllLowerHexDigits(a) && AllLowerHexDigits(b)
    ensures AllLowerHexDigits(a + b)
  {
    forall i | 0 <= i < |a + b|
      ensures IsLowerHexDigit((a + b)[i])
    {
      if i >= |a| {
        assert (a + b)[i] == b[i - |a|];
      }
    }
  }

  /** The hex field of the colour report (main.py line 199). */
  function ToHex(c: Rgb): (s: string)
    ensures |s| >= 7 && s[0] == '#' && AllLowerHexDigits(s[1..])
    ensures |s| == 7 <==> IsByteRgb(c)
  {
    var hr, hg, hb := Format02x(c.r), Format02x(c.g), Format02x(c.b);
    LowerConcat(hr, hg);
    LowerConcat(hr + hg, hb);
    var s := "#" + (hr + hg + hb);
    assert s[1..] == hr + hg + hb;
    s
  }

  /** For byte channels: `#`, then two zero-padded lower-case digits per channel. */
  lemma ToHexLayout(c: Rgb)
    requires IsByteRgb(c)
    ensures ToHex(c) == ['#', HexDigit(c.r / 16), HexDigit(c.r % 16),
                              HexDigit(c.g / 16), HexDigit(c.g % 16),
                              HexDigit(c.b / 16), HexDigit(c.b % 16)]
  {
    Format02xOfByte(c.r);
    Format02xOfByte(c.g);
    Format02xOfByte(c.b);
  }

  /** Reads the `#rrggbb` form back into a triple; anything else is rejected. */
  function ParseHex(s: string): (r: Option<Rgb>)
    ensures r.Some? <==> |s| == 7 && s[0] == '#' && AllHexDigits(s[1..])
    ensures r.Some? ==> IsByteRgb(r.value)
  {
    if |s| == 7 && s[0] == '#' && AllHexDigits(s[1..]) then
      assert AllHexDigits(s[1..3]) && AllHexDigits(s[3..5]) && AllHexDigits(s[5..7]) by {
        assert s[1..3] == s[1..][0..2] && s[3..5] == s[1..][2..4] && s[5..7] == s[1..][4..6];
      }
      Some(Rgb(PairValue(s[1..3]), PairValue(s[3..5]), PairValue(s[5..7])))
    else None
  }

  /** The value of a two-digit group, always a byte. */
  function PairValue(p: string): (v: nat)
    requires |p| == 2 && AllHexDigits(p)
    ensures v < 256
  {
    HexValueOfPair(p);
    HexValue(p)
  }

  /** Decoding the hex field gives back the pixel's channels exactly. */
  lemma ParseToHex(c: Rgb)
    requires IsByteRgb(c)
    ensures ParseHex(ToHex(c)) == Some(c)
  {
    var s := ToHex(c);
    var hr, hg, hb := Format02x(c.r), Format02x(c.g), Format02x(c.b);
    assert |hr| == 2 && |hg| == 2 && |hb| == 2;
    assert s == "#" + hr + hg + hb;
    assert s[1..3] == hr;
    assert s[3..5] == hg;
    assert s[5..7] == hb;
  }

  /** Three lower-case digit pairs, read as channels, are printed back as the same pairs. */
  lemma ToHexOfPairs(a: string, b: string, d: string)
    requires |a| == 2 && |b| == 2 && |d| == 2
    requires AllLowerHexDigits(a) && AllLowerHexDigits(b) && AllLowerHexDigits(d)
    ensures ToHex(Rgb(HexValue(a), HexValue(b), HexValue(d))) == "#" + a + b + d
  {
    Format02xOfPair(a);
    Format02xOfPair(b);
    Format02xOfPair(d);
  }

  /** A lower-case `#rrggbb` string is '#' and three lower-case digit pairs. */
  lemma LowerPairs(s: string)
    requires |s| == 7 && AllLowerHexDigits(s[1..])
    ensures AllLowerHexDigits(s[1..3]) && AllLowerHexDigits(s[3..5]) && AllLowerHexDigits(s[5..7])
    ensures s == [s[0]] + s[1..3] + s[3..5] + s[5..7]
  {
    assert s[1..3] == s[1..][0..2] && s[3..5] == s[1..][2..4] && s[5..7] == s[1..][4..6];
  }

  /** Every lower-case `#rrggbb` string is the hex field of the triple it denotes. */
  lemma ToHexParse(s: string)
    requires ParseHex(s).Some? && AllLowerHexDigits(s[1..])
    ensures ToHex(ParseHex(s).value) == s
  {
    var a, b, d := s[1..3], s[3..5], s[5..7];
    LowerPairs(s);
    assert ParseHex(s).value == Rgb(HexValue(a), HexValue(b), HexValue(d));
    ToHexOfPairs(a, b, d);
  }

  /** Distinct pixels never share a hex field. */
  lemma ToHexInjective(c1: Rgb, c2: Rgb)
    requires IsByteRgb(c1) && IsByteRgb(c2) && ToHex(c1) == ToHex(c2)
    ensures c1 == c2
  {
    ParseToHex(c1);
    ParseToHex(c2);
  }
}
