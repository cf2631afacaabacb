/**
 Hex colour codes of the form `#RRGGBB`: parsing one into three 8-bit channels
 (`hex_to_rgb`) and formatting three channels back into one (`rgb_to_hex`).
 Strings are sequences of characters, each of them standing for one byte.
 */
module HexColor {

  datatype Option<+T> = None | Some(value: T)

  /** Rust's `u8`. */
  type u8 = x: int | 0 <= x < 256

  /** A colour as its red, green and blue channels, the tuple `(u8, u8, u8)`. */
  datatype Rgb = Rgb(r: u8, g: u8, b: u8)

  /** A digit that `char::to_digit(16)` accepts, in either case. */
  predicate IsHexDigit(c: char) {
    '0' <= c <= '9' || 'a' <= c <= 'f' || 'A' <= c <= 'F'
  }

  /** A digit as the `X` format writes it. */
  predicate IsUpperHexDigit(c: char) {
    '0' <= c <= '9' || 'A' <= c <= 'F'
  }

  predicate AllHexDigits(s: string) {
    forall i :: 0 <= i < |s| ==> IsHexDigit(s[i])
  }

  /** The value of one base-16 digit. */
  function DigitValue(c: char): (v: nat)
    requires IsHexDigit(c)
    ensures v < 16
  {
    if '0' <= c <= '9' then c as int - '0' as int
    else if 'a' <= c <= 'f' then c as int - 'a' as int + 10
    else c as int - 'A' as int + 10
  }

  /** The uppercase digit of a value below 16. */
  function UpperDigit(d: nat): (c: char)
    requires d < 16
    ensures IsUpperHexDigit(c) && IsHexDigit(c) && DigitValue(c) == d
  {
    if d < 10 then ('0' as int + d) as char else ('A' as int + d - 10) as char
  }

  /** Two uppercase digits with the same value are the same digit. */
  lemma UpperDigitInjective(x: char, y: char)
    requires IsUpperHexDigit(x) && IsUpperHexDigit(y)
    requires DigitValue(x) == DigitValue(y)
    ensures x == y
  {
  }

  /** The number a string of base-16 digits denotes, most significant digit first. */
  function DigitsValue(s: string): nat
    requires AllHexDigits(s)
  {
    if s == [] then 0 else 16 * DigitsValue(s[..|s| - 1]) + DigitValue(s[|s| - 1])
  }

  /**
   `u8::from_str_radix(s, 16)`: an optional leading `+`, then one or more
   base-16 digits (either case) whose value fits in a `u8`. The empty string,
   a lone `+` or `-`, any other character and an overflow all fail.
   */
  function FromStrRadix16(s: string): (r: Option<u8>)
    ensures s == [] || s == ['+'] ==> r == None
    ensures s != [] && s[0] != '+' && !IsHexDigit(s[0]) ==> r == None
    ensures |s| == 1 && IsHexDigit(s[0]) ==> r == Some(DigitValue(s[0]))
  {
    if s == [] then None
    else
      var digits := if s[0] == '+' then s[1..] else s;
      if digits == [] || !AllHexDigits(digits) then None
      else
        assert |digits| == 1 ==> DigitsValue(digits) == DigitValue(digits[0]) by {
          if |digits| == 1 { assert digits[..0] == []; }
        }
        if DigitsValue(digits) < 256 then Some(DigitsValue(digits))
        else None
  }

  /** A two-character field that `FromStrRadix16` accepts: two digits, or `+` and one digit. */
  predicate PairParses(a: char, b: char) {
    IsHexDigit(b) && (IsHexDigit(a) || a == '+')
  }

  /** The value a two-character field denotes when it parses. */
  predicate PairDenotes(a: char, b: char, v: int) {
    (IsHexDigit(a) && IsHexDigit(b) && v == 16 * DigitValue(a) + DigitValue(b))
    || (a == '+' && IsHexDigit(b) && v == DigitValue(b))
  }

  /** What `FromStrRadix16` makes of a field of two characters. */
  lemma PairParse(a: char, b: char)
    ensures FromStrRadix16([a, b]).Some? <==> PairParses(a, b)
    ensures FromStrRadix16([a, b]).Some? ==> PairDenotes(a, b, FromStrRadix16([a, b]).value)
  {
    var s := [a, b];
    assert s[0] == a && s[1] == b;
    if a == '+' {
      assert s[1..] == [b] && [b][0] == b;
      assert [b][..0] == [];
      assert AllHexDigits([b]) <==> IsHexDigit(b);
      if IsHexDigit(b) {
        assert DigitsValue([b]) == DigitValue(b);
      }
    } else {
      assert s[..1] == [a] && [a][0] == a;
      assert [a][..0] == [];
      assert AllHexDigits(s) <==> IsHexDigit(a) && IsHexDigit(b);
      if AllHexDigits(s) {
        assert DigitsValue([a]) == DigitValue(a);
        assert DigitsValue(s) == 16 * DigitValue(a) + DigitValue(b);
      }
    }
  }

  /** `hex_to_rgb`: `#` and three two-character fields, each read by `FromStrRadix16`. */
  function HexToRgb(hex: string): (res: Option<Rgb>)
    ensures !(|hex| == 7 && hex[0] == '#') ==> res == None
  {
    if |hex| != 7 || hex[0] != '#' then None
    else
      var r := FromStrRadix16(hex[1..3]);
      if r.None? then None
      else
        var g := FromStrRadix16(hex[3..5]);
        if g.None? then None
        else
          var b := FromStrRadix16(hex[5..7]);
          if b.None? then None
          else Some(Rgb(r.value, g.value, b.value))
  }

  /** `hex_to_rgb` succeeds exactly on `#` followed by three fields that parse, and yields their values. */
  lemma HexToRgbSpec(hex: string)
    ensures HexToRgb(hex).Some? <==>
      && |hex| == 7 && hex[0] == '#'
      && PairParses(hex[1], hex[2]) && PairParses(hex[3], hex[4]) && PairParses(hex[5], hex[6])
    ensures HexToRgb(hex).Some? ==>
      var c := HexToRgb(hex).value;
      && PairDenotes(hex[1], hex[2], c.r)
      && PairDenotes(hex[3], hex[4], c.g)
      && PairDenotes(hex[5], hex[6], c.b)
  {
    if |hex| == 7 && hex[0] == '#' {
      assert hex[1..3] == [hex[1], hex[2]];
      assert hex[3..5] == [hex[3], hex[4]];
      assert hex[5..7] == [hex[5], hex[6]];
      PairParse(hex[1], hex[2]);
      PairParse(hex[3], hex[4]);
      PairParse(hex[5], hex[6]);
    }
  }

  /** On `#` and six digits `hex_to_rgb` yields the values of the three fields. */
  lemma ParseDigits(hex: string)
    requires |hex| == 7 && hex[0] == '#'
    requires IsHexDigit(hex[1]) && IsHexDigit(hex[2]) && IsHexDigit(hex[3])
    requires IsHexDigit(hex[4]) && IsHexDigit(hex[5]) && IsHexDigit(hex[6])
    ensures HexToRgb(hex) == Some(Rgb(
      16 * DigitValue(hex[1]) + DigitValue(hex[2]),
      16 * DigitValue(hex[3]) + DigitValue(hex[4]),
      16 * DigitValue(hex[5]) + DigitValue(hex[6])))
  {
    HexToRgbSpec(hex);
  }

  /** The base-16 numeral of `n` in uppercase digits, without leading zeros (`0` for zero). */
  function UpperHex(n: nat): (s: string)
    ensures |s| >= 1 && forall i :: 0 <= i < |s| ==> IsUpperHexDigit(s[i])
    ensures AllHexDigits(s) && DigitsValue(s) == n
    ensures n < 16 ==> |s| == 1
    ensures 16 <= n < 256 ==> |s| == 2
    decreases n
  {
    if n < 16 then
      [UpperDigit(n)]
    else
      var s := UpperHex(n / 16) + [UpperDigit(n % 16)];
      assert s[..|s| - 1] == UpperHex(n / 16);
      s
  }

  /** Left-pads `s` with `0` up to `width` characters, as the `0` flag and a width do in Rust's `format!`. */
  function ZeroPad(s: string, width: nat): (p: string)
    ensures |p| == if |s| < width then width else |s|
    ensures p[|p| - |s|..] == s
    ensures forall i :: 0 <= i < |p| - |s| ==> p[i] == '0'
  {
    if |s| >= width then s else seq(width - |s|, _ => '0') + s
  }

  /** `format!("{:02X}", v)` for a `u8`: the high and the low digit of `v` in uppercase. */
  function Hex2(v: u8): (s: string)
    ensures |s| == 2 && IsUpperHexDigit(s[0]) && IsUpperHexDigit(s[1])
    ensures IsHexDigit(s[0]) && IsHexDigit(s[1]) && 16 * DigitValue(s[0]) + DigitValue(s[1]) == v
  {
    [UpperDigit(v / 16), UpperDigit(v % 16)]
  }

  /**
   `Hex2` is what the format spec `{:02X}` says: the uppercase numeral of `v`
   without leading zeros, padded on the left with `0` to a width of two.
   */
  lemma Hex2IsZeroPaddedNumeral(v: u8)
    ensures Hex2(v) == ZeroPad(UpperHex(v), 2)
  {
    var h := UpperHex(v);
    var p := ZeroPad(h, 2);
    if v < 16 {
      assert p == ['0'] + h && [h[0]][..0] == [];
      Hex2Unique(v, p[0], p[1]);
    } else {
      assert p == h && h[..1] == [h[0]] && [h[0]][..0] == [];
      Hex2Unique(v, p[0], p[1]);
    }
  }

  /** A hex colour in the form `rgb_to_hex` writes: `#` and six uppercase digits. */
  predicate IsCanonical(s: string) {
    |s| == 7 && s[0] == '#' && forall i :: 1 <= i < 7 ==> IsUpperHexDigit(s[i])
  }

  /**
   `rgb_to_hex`: `#` followed by the three channels as `{:02X}` fields, so two
   uppercase digits per channel, in red, green, blue order, denoting that channel.
   */
  function RgbToHex(c: Rgb): (h: string)
    ensures IsCanonical(h)
    ensures && 16 * DigitValue(h[1]) + DigitValue(h[2]) == c.r
            && 16 * DigitValue(h[3]) + DigitValue(h[4]) == c.g
            && 16 * DigitValue(h[5]) + DigitValue(h[6]) == c.b
  {
    var r, g, b := Hex2(c.r), Hex2(c.g), Hex2(c.b);
    ['#', r[0], r[1], g[0], g[1], b[0], b[1]]
  }

  /** Parsing what `rgb_to_hex` writes gives back the colour: the round trip is lossless. */
  lemma {:induction false} ParseOfFormat(c: Rgb)
    ensures HexToRgb(RgbToHex(c)) == Some(c)
  {
    var s := RgbToHex(c);
    ParseDigits(s);
  }

  /** The uppercase form of an ASCII letter; everything else is unchanged. */
  function AsciiUpper(c: char): char {
    if 'a' <= c <= 'z' then (c as int - 32) as char else c
  }

  /** Upper-casing a digit keeps its value. */
  lemma AsciiUpperDigit(c: char)
    requires IsHexDigit(c)
    ensures IsUpperHexDigit(AsciiUpper(c)) && IsHexDigit(AsciiUpper(c))
    ensures DigitValue(AsciiUpper(c)) == DigitValue(c)
  {
  }

  function AsciiUpperString(s: string): (u: string)
    ensures |u| == |s| && forall i :: 0 <= i < |s| ==> u[i] == AsciiUpper(s[i])
  {
    seq(|s|, i requires 0 <= i < |s| => AsciiUpper(s[i]))
  }

  /** `Hex2` writes the only two uppercase digits that denote its argument. */
  lemma Hex2Unique(v: u8, x: char, y: char)
    requires IsUpperHexDigit(x) && IsUpperHexDigit(y)
    requires 16 * DigitValue(x) + DigitValue(y) == v
    ensures Hex2(v) == [x, y]
  {
    var h := Hex2(v);
    assert DigitValue(h[0]) == DigitValue(x) && DigitValue(h[1]) == DigitValue(y);
    UpperDigitInjective(h[0], x);
    UpperDigitInjective(h[1], y);
  }

  /** Formatting a field of two digits gives the field back in uppercase. */
  lemma Hex2OfPair(a: char, b: char, v: u8)
    requires IsHexDigit(a) && IsHexDigit(b) && v == 16 * DigitValue(a) + DigitValue(b)
    ensures Hex2(v) == [AsciiUpper(a), AsciiUpper(b)]
  {
    AsciiUpperDigit(a);
    AsciiUpperDigit(b);
    Hex2Unique(v, AsciiUpper(a), AsciiUpper(b));
  }

  /**
   For `#` and six base-16 digits in either case, formatting the parsed colour
   gives the string back with its letters in uppercase.
   */
  lemma FormatOfParse(s: string)
    requires |s| == 7 && s[0] == '#' && AllHexDigits(s[1..])
    ensures HexToRgb(s).Some?
    ensures RgbToHex(HexToRgb(s).value) == AsciiUpperString(s)
  {
    forall i | 1 <= i < 7 ensures IsHexDigit(s[i]) { assert s[1..][i - 1] == s[i]; }
    ParseDigits(s);
    var c := HexToRgb(s).value;
    Hex2OfPair(s[1], s[2], c.r);
    Hex2OfPair(s[3], s[4], c.g);
    Hex2OfPair(s[5], s[6], c.b);
    var u := AsciiUpperString(s);
    assert RgbToHex(c) == ['#', u[1], u[2], u[3], u[4], u[5], u[6]];
    assert u == ['#', u[1], u[2], u[3], u[4], u[5], u[6]];
  }

  /** For `#` and six uppercase digits, formatting the parsed colour gives `s` back. */
  lemma FormatOfParseCanonical(s: string)
    requires IsCanonical(s)
    ensures HexToRgb(s).Some? && RgbToHex(HexToRgb(s).value) == s
  {
    assert AllHexDigits(s[1..]);
    FormatOfParse(s);
    assert AsciiUpperString(s) == s;
  }

  /** `#000000` is black. */
  lemma ParseBlack()
    ensures HexToRgb("#000000") == Some(Rgb(0, 0, 0))
  {
    ParseDigits("#000000");
  }

  /** `#FFFFFF` is white. */
  lemma ParseWhite()
    ensures HexToRgb("#FFFFFF") == Some(Rgb(255, 255, 255))
  {
    ParseDigits("#FFFFFF");
  }

  /** Black and white format as `#000000` and `#FFFFFF`. */
  lemma FormatBlackAndWhite()
    ensures RgbToHex(Rgb(0, 0, 0)) == "#000000" && RgbToHex(Rgb(255, 255, 255)) == "#FFFFFF"
  {
  }

  /**
   `from_str_radix` takes a leading `+`, so a field such as `+F` parses as 15:
   `#+F0000` is read as (15, 0, 0), which formats as `#0F0000`.
   */
  lemma PlusSignAccepted()
    ensures HexToRgb("#+F0000") == Some(Rgb(15, 0, 0))
    ensures RgbToHex(Rgb(15, 0, 0)) == "#0F0000"
  {
    HexToRgbSpec("#+F0000");
    FormatOfParseCanonical("#0F0000");
  }
}
