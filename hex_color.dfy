/** The colour helpers of the glacial-geology renderer: `hexToRgb` and the
    fill-symbol factory `f` (app.js:71-75). `hexToRgb` strips the first `#`,
    cuts the rest into the slices [0,2), [2,4), [4,6) and hands each to
    `parseInt(_, 16)`, whose ECMAScript steps are modelled up to the final
    conversion to a double, so the model also says what happens to malformed
    input. Strings are sequences of
    Unicode scalar values, so positions count those rather than UTF-16 code
    units. */
module HexColor {
  import opened Wrappers

  // ---------------------------------------------------------------------------
  // parseInt(s, 16)
  // ---------------------------------------------------------------------------

  /** The WhiteSpace and LineTerminator code points that `parseInt` skips
      before the number. */
  predicate IsStrWhiteSpace(c: char) {
    || c == '\t' || c == '\n' || c == '\U{0B}' || c == '\U{0C}' || c == '\r'
    || c == ' ' || c == '\U{A0}' || c == '\U{1680}' || ('\U{2000}' <= c <= '\U{200A}')
    || c == '\U{2028}' || c == '\U{2029}' || c == '\U{202F}' || c == '\U{205F}'
    || c == '\U{3000}' || c == '\U{FEFF}'
  }

  predicate IsHexDigit(c: char) {
    '0' <= c <= '9' || 'a' <= c <= 'f' || 'A' <= c <= 'F'
  }

  predicate AllHexDigits(s: string) {
    forall i :: 0 <= i < |s| ==> IsHexDigit(s[i])
  }

  function HexVal(c: char): (v: nat)
    requires IsHexDigit(c)
    ensures v < 16
  {
    if '0' <= c <= '9' then c as int - '0' as int
    else if 'a' <= c <= 'f' then c as int - 'a' as int + 10
    else c as int - 'A' as int + 10
  }

  function Pow16(n: nat): (p: nat)
    ensures p >= 1
  {
    if n == 0 then 1 else 16 * Pow16(n - 1)
  }

  lemma {:induction false} Pow16Monotone(a: nat, b: nat)
    requires a <= b
    ensures Pow16(a) <= Pow16(b)
  {
    if a < b {
      Pow16Monotone(a, b - 1);
    }
  }

  /** The input with its leading white space removed (step 2 of parseInt). */
  function TrimStart(s: string): (t: string)
    ensures |t| <= |s|
  {
    if s != [] && IsStrWhiteSpace(s[0]) then TrimStart(s[1..]) else s
  }

  /** `TrimStart` drops exactly the leading white space: what it removes is
      white space and what it keeps is a suffix starting with something else. */
  lemma {:induction false} TrimStartSkipsWhiteSpace(s: string)
    ensures var t := TrimStart(s);
            && t == s[|s| - |t|..]
            && (t == [] || !IsStrWhiteSpace(t[0]))
            && forall i :: 0 <= i < |s| - |t| ==> IsStrWhiteSpace(s[i])
  {
    if s != [] && IsStrWhiteSpace(s[0]) {
      TrimStartSkipsWhiteSpace(s[1..]);
    }
  }

  /** The length of the longest prefix of `s` made of hexadecimal digits
      (step 11 of parseInt). */
  function HexRun(s: string): (k: nat)
    ensures k <= |s|
  {
    if s != [] && IsHexDigit(s[0]) then 1 + HexRun(s[1..]) else 0
  }

  /** `HexRun` measures the longest run: the first `k` characters are
      digits and the next one, if any, is not. */
  lemma {:induction false} HexRunIsLongest(s: string)
    ensures forall i :: 0 <= i < HexRun(s) ==> IsHexDigit(s[i])
    ensures HexRun(s) < |s| ==> !IsHexDigit(s[HexRun(s)])
  {
    if s != [] && IsHexDigit(s[0]) {
      HexRunIsLongest(s[1..]);
    }
  }

  /** The value of one digit; anything else counts 0 (the parser never
      feeds it anything else). */
  function DigitValue(c: char): (v: nat)
    ensures v < 16
  {
    if IsHexDigit(c) then HexVal(c) else 0
  }

  /** The number a run of hexadecimal digits denotes, most significant first. */
  function DigitsValue(s: string): (v: nat)
    ensures v < Pow16(|s|)
  {
    if s == [] then 0
    else
      var high := DigitsValue(s[..|s| - 1]);
      assert high * 16 <= (Pow16(|s| - 1) - 1) * 16;
      high * 16 + DigitValue(s[|s| - 1])
  }

  /** Step 4-5 of parseInt: a leading `-` makes the result negative, and
      one `-` or `+` is removed. */
  function StripSign(t: string): (r: (bool, string))
    ensures |r.1| <= |t| && (r.0 ==> |r.1| < |t|)
  {
    var negative := t != [] && t[0] == '-';
    (negative, if t != [] && (t[0] == '-' || t[0] == '+') then t[1..] else t)
  }

  /** Step 10 of parseInt for radix 16: a `0x` or `0X` prefix is removed. */
  function StripHexPrefix(u: string): (w: string)
    ensures |w| <= |u|
  {
    if |u| >= 2 && u[0] == '0' && (u[1] == 'x' || u[1] == 'X') then u[2..] else u
  }

  /** Steps 11-14 of parseInt: the value of the longest run of digits, or
      NaN when the run is empty. */
  function ParseDigitRun(w: string): (r: Option<nat>)
    ensures r.Some? ==> |w| > 0 && r.value < Pow16(|w|)
  {
    var k := HexRun(w);
    if k == 0 then None
    else
      Pow16Monotone(k, |w|);
      Some(DigitsValue(w[..k]))
  }

  /** `parseInt(s, 16)`: skip white space, take one sign, drop a `0x`/`0X`
      prefix, then read the longest run of hex digits. `None` is NaN (no digit
      at all); a negative zero is the integer 0. A number parsed from `n`
      characters has at most `n` digits, and at most `n - 1` when it carries
      a minus sign. */
  function ParseInt16(s: string): (r: Option<int>)
    ensures r.Some? ==> |s| > 0 && -(Pow16(|s| - 1) as int) < r.value < Pow16(|s|)
  {
    var signed := StripSign(TrimStart(s));
    var w := StripHexPrefix(signed.1);
    match ParseDigitRun(w)
    case None => None
    case Some(m) =>
      if signed.0 then
        Pow16Monotone(|w|, |s| - 1);
        Pow16Monotone(|s| - 1, |s|);
        Some(-(m as int))
      else
        Pow16Monotone(|w|, |s|);
        Some(m)
  }

  /** A string of two hexadecimal digits parses to the byte they spell. */
  lemma ParseHexPair(hi: char, lo: char)
    requires IsHexDigit(hi) && IsHexDigit(lo)
    ensures ParseInt16([hi, lo]) == Some(16 * HexVal(hi) + HexVal(lo))
  {
    var s := [hi, lo];
    assert TrimStart(s) == s;
    assert s[1..][1..] == [];
    assert HexRun(s[1..]) == 1;
    assert HexRun(s) == 2;
    assert s[..2] == s;
    assert s[..1] == [hi] && [hi][..0] == [];
    assert DigitsValue(s[..1]) == HexVal(hi);
    assert DigitsValue(s) == 16 * HexVal(hi) + HexVal(lo);
  }

  // ---------------------------------------------------------------------------
  // String.prototype.replace and slice
  // ---------------------------------------------------------------------------

  /** The index of the first `c` in `s`, or `|s|` when there is none
      (`String.prototype.indexOf`, with `-1` written as `|s|`). */
  function IndexOf(s: string, c: char): (i: nat)
    ensures i <= |s| && c !in s[..i]
    ensures i < |s| <==> c in s
    ensures i < |s| ==> s[i] == c
  {
    if s == [] then 0
    else if s[0] == c then 0
    else
      var i := 1 + IndexOf(s[1..], c);
      assert s[..i] == [s[0]] + s[1..][..i - 1];
      assert s == [s[0]] + s[1..];
      i
  }

  /** `s.replace(c, "")` with a one-character string pattern: only the first
      occurrence of `c` is removed, and a string without `c` is returned as is. */
  function ReplaceFirst(s: string, c: char): (t: string)
    ensures c !in s ==> t == s
    ensures c in s ==> |t| == |s| - 1 && t == s[..IndexOf(s, c)] + s[IndexOf(s, c) + 1..]
  {
    var i := IndexOf(s, c);
    if i == |s| then s else s[..i] + s[i + 1..]
  }

  /** `s.slice(from, to)` for non-negative bounds: both are clamped to the
      length and an empty string results when they cross. */
  function Slice(s: string, from: nat, to: nat): (t: string)
    ensures from <= to <= |s| ==> t == s[from..to]
    ensures from <= |s| <= to ==> t == s[from..]
    ensures |s| <= from || to <= from ==> t == []
    ensures from <= to ==> |t| <= to - from
  {
    var a := if from < |s| then from else |s|;
    var b := if to < |s| then to else |s|;
    if a < b then s[a..b] else []
  }

  /** Adjacent slices join into the slice that spans both. */
  lemma SliceJoin(s: string, a: nat, b: nat, c: nat)
    requires a <= b <= c
    ensures Slice(s, a, b) + Slice(s, b, c) == Slice(s, a, c)
  {
    if c <= |s| {
      assert s[a..c] == s[a..b] + s[b..c];
    } else if b <= |s| {
      assert s[a..] == s[a..b] + s[b..];
    }
  }

  // ---------------------------------------------------------------------------
  // hexToRgb and f
  // ---------------------------------------------------------------------------

  /** The three channels `hexToRgb` returns; `None` is NaN. */
  datatype Rgb = Rgb(r: Option<int>, g: Option<int>, b: Option<int>)

  /** Whatever a two-character slice parses to: NaN, or a number above -16
      (a sign and one digit) and below 256 (two digits). */
  predicate InChannelRange(x: Option<int>) {
    x.Some? ==> -16 < x.value < 256
  }

  function HexToRgb(hex: string): (c: Rgb)
    ensures InChannelRange(c.r) && InChannelRange(c.g) && InChannelRange(c.b)
  {
    var h := ReplaceFirst(hex, '#');
    Rgb(ParseInt16(Slice(h, 0, 2)), ParseInt16(Slice(h, 2, 4)), ParseInt16(Slice(h, 4, 6)))
  }

  /** A well-formed colour code: six hexadecimal digits, optionally after `#`. */
  predicate IsColorCode(hex: string) {
    || (|hex| == 6 && AllHexDigits(hex))
    || (|hex| == 7 && hex[0] == '#' && AllHexDigits(hex[1..]))
  }

  /** The six digits of a colour code. */
  function CodeDigits(hex: string): (d: string)
    requires IsColorCode(hex)
    ensures |d| == 6 && AllHexDigits(d)
  {
    if |hex| == 7 then hex[1..] else hex
  }

  /** The byte spelled by the digit pair of `d` starting at `i`. */
  function PairValue(d: string, i: nat): (v: nat)
    requires i + 1 < |d| && IsHexDigit(d[i]) && IsHexDigit(d[i + 1])
    ensures v < 256
  {
    16 * HexVal(d[i]) + HexVal(d[i + 1])
  }

  /** Removing the first `#` of a colour code leaves its six digits. */
  lemma StripHash(hex: string)
    requires IsColorCode(hex)
    ensures ReplaceFirst(hex, '#') == CodeDigits(hex)
  {
    if |hex| == 7 {
      assert IndexOf(hex, '#') == 0;
      assert hex[..0] + hex[1..] == hex[1..];
    } else {
      forall i | 0 <= i < |hex| ensures hex[i] != '#' {
        assert IsHexDigit(hex[i]);
      }
    }
  }

  /** The slice of `d` at `i` that `hexToRgb` parses, when it is a digit pair. */
  lemma ParseSlice(d: string, i: nat)
    requires |d| == 6 && i + 2 <= 6 && IsHexDigit(d[i]) && IsHexDigit(d[i + 1])
    ensures ParseInt16(Slice(d, i, i + 2)) == Some(PairValue(d, i))
  {
    assert Slice(d, i, i + 2) == [d[i], d[i + 1]];
    ParseHexPair(d[i], d[i + 1]);
  }

  /** Six hex digits parse, pair by pair, to their byte values. */
  lemma DigitChannels(d: string)
    requires |d| == 6 && AllHexDigits(d)
    ensures Rgb(ParseInt16(Slice(d, 0, 2)), ParseInt16(Slice(d, 2, 4)), ParseInt16(Slice(d, 4, 6)))
         == Rgb(Some(PairValue(d, 0)), Some(PairValue(d, 2)), Some(PairValue(d, 4)))
  {
    assert IsHexDigit(d[0]) && IsHexDigit(d[1]) && IsHexDigit(d[2]) && IsHexDigit(d[3]) && IsHexDigit(d[4]) && IsHexDigit(d[5]);
    ParseSlice(d, 0);
    ParseSlice(d, 2);
    ParseSlice(d, 4);
  }

  /** On a well-formed code, `hexToRgb` parses the slices of its six digits. */
  lemma SlicesOfCode(hex: string)
    requires IsColorCode(hex)
    ensures var d := CodeDigits(hex);
            HexToRgb(hex) == Rgb(ParseInt16(Slice(d, 0, 2)), ParseInt16(Slice(d, 2, 4)), ParseInt16(Slice(d, 4, 6)))
  {
    StripHash(hex);
  }

  /** On a well-formed code, `hexToRgb` returns the three digit pairs as bytes. */
  lemma ColorCodeChannels(hex: string)
    requires IsColorCode(hex)
    ensures var d := CodeDigits(hex);
            HexToRgb(hex) == Rgb(Some(PairValue(d, 0)), Some(PairValue(d, 2)), Some(PairValue(d, 4)))
  {
    SlicesOfCode(hex);
    DigitChannels(CodeDigits(hex));
  }

  /** The upper-case digit for a value below 16. */
  function HexChar(v: nat): (c: char)
    requires v < 16
    ensures IsHexDigit(c) && HexVal(c) == v
  {
    if v < 10 then ('0' as int + v) as char else ('A' as int + v - 10) as char
  }

  /** The `#RRGGBB` code of three bytes, the inverse direction of `hexToRgb`. */
  function ColorCode(r: nat, g: nat, b: nat): (hex: string)
    requires r < 256 && g < 256 && b < 256
    ensures IsColorCode(hex)
  {
    var code := ['#', HexChar(r / 16), HexChar(r % 16), HexChar(g / 16), HexChar(g % 16), HexChar(b / 16), HexChar(b % 16)];
    assert forall i :: 1 <= i < 7 ==> IsHexDigit(code[i]);
    code
  }

  /** The two digits `ColorCode` writes for a byte spell that byte. */
  lemma DigitsOfByte(v: nat)
    requires v < 256
    ensures 16 * HexVal(HexChar(v / 16)) + HexVal(HexChar(v % 16)) == v
  {
  }

  /** The digit pairs of an encoded colour spell its three bytes. */
  lemma PairsOfColorCode(r: nat, g: nat, b: nat)
    requires r < 256 && g < 256 && b < 256
    ensures var d := CodeDigits(ColorCode(r, g, b));
            PairValue(d, 0) == r && PairValue(d, 2) == g && PairValue(d, 4) == b
  {
    var d := CodeDigits(ColorCode(r, g, b));
    assert d[0] == HexChar(r / 16) && d[1] == HexChar(r % 16);
    assert d[2] == HexChar(g / 16) && d[3] == HexChar(g % 16);
    assert d[4] == HexChar(b / 16) && d[5] == HexChar(b % 16);
    DigitsOfByte(r);
    DigitsOfByte(g);
    DigitsOfByte(b);
  }

  /** Decoding an encoded colour gives back the three bytes. */
  lemma DecodeEncode(r: nat, g: nat, b: nat)
    requires r < 256 && g < 256 && b < 256
    ensures HexToRgb(ColorCode(r, g, b)) == Rgb(Some(r), Some(g), Some(b))
  {
    PairsOfColorCode(r, g, b);
    ColorCodeChannels(ColorCode(r, g, b));
  }

  /** A hexadecimal digit written in upper case. */
  function UpperDigit(c: char): (u: char)
    requires IsHexDigit(c)
    ensures IsHexDigit(u) && HexVal(u) == HexVal(c)
  {
    if 'a' <= c <= 'f' then (c as int - 'a' as int + 'A' as int) as char else c
  }

  /** Encoding a digit pair's byte writes the pair again, in upper case. */
  lemma ByteOfDigits(hi: char, lo: char)
    requires IsHexDigit(hi) && IsHexDigit(lo)
    ensures var v := 16 * HexVal(hi) + HexVal(lo);
            HexChar(v / 16) == UpperDigit(hi) && HexChar(v % 16) == UpperDigit(lo)
  {
    var v := 16 * HexVal(hi) + HexVal(lo);
    assert v / 16 == HexVal(hi) && v % 16 == HexVal(lo);
  }

  /** Decoding a code and encoding the bytes again only normalises letter
      case and the leading `#`: no digit is lost. */
  lemma EncodeDecode(hex: string)
    requires IsColorCode(hex)
    ensures var d := CodeDigits(hex);
            ColorCode(PairValue(d, 0), PairValue(d, 2), PairValue(d, 4))
            == ['#', UpperDigit(d[0]), UpperDigit(d[1]), UpperDigit(d[2]), UpperDigit(d[3]), UpperDigit(d[4]), UpperDigit(d[5])]
  {
    var d := CodeDigits(hex);
    assert IsHexDigit(d[0]) && IsHexDigit(d[1]) && IsHexDigit(d[2]) && IsHexDigit(d[3]) && IsHexDigit(d[4]) && IsHexDigit(d[5]);
    ByteOfDigits(d[0], d[1]);
    ByteOfDigits(d[2], d[3]);
    ByteOfDigits(d[4], d[5]);
  }

  /** The fill symbol `f` builds for one map unit. */
  datatype Outline = Outline(color: seq<real>, width: real)
  datatype FillSymbol = FillSymbol(kind: string, r: Option<int>, g: Option<int>, b: Option<int>, alpha: real, outline: Outline)

  const FillOutline := Outline([60.0, 60.0, 60.0, 0.55], 0.4)

  function Fill(hex: string): (s: FillSymbol)
    ensures Rgb(s.r, s.g, s.b) == HexToRgb(hex)
  {
    var rgb := HexToRgb(hex);
    FillSymbol("simple-fill", rgb.r, rgb.g, rgb.b, 0.9, FillOutline)
  }

  /** Two fills differ at most in their colour channels: kind, alpha and
      outline do not depend on the input. */
  lemma FillStyleIsConstant(hex1: string, hex2: string)
    ensures Fill(hex1).(r := None, g := None, b := None) == Fill(hex2).(r := None, g := None, b := None)
  {
  }

  /** The fill of a well-formed code carries the code's three bytes. */
  lemma FillOfColorCode(hex: string)
    requires IsColorCode(hex)
    ensures var d := CodeDigits(hex);
            Fill(hex).r == Some(PairValue(d, 0)) && Fill(hex).g == Some(PairValue(d, 2)) && Fill(hex).b == Some(PairValue(d, 4))
  {
    ColorCodeChannels(hex);
  }

  /** The map units of the glacial-geology renderer and their colour codes. */
  const GlacialPalette: seq<(string, string)> := [
    ("Ch", "#98A48E"), ("Ci", "#C0DA94"), ("Cl", "#98A48E"), ("Cr", "#B6D3AC"),
    ("Cs", "#99C18A"), ("Hh", "#6C93BA"), ("Hm", "#476686"), ("Hs", "#95B9DC"),
    ("Mr", "#D2C8D6"), ("b", "#B8C1BC"), ("lp", "#E6E6E6"), ("o", "#AA9388"),
    ("ru", "#C6B4B7"), ("sc", "#F3EDC8"), ("sm", "#F3EDC8"), ("sn", "#FFFFAB"),
    ("st", "#F9EA98"), ("su", "#F3EDC8")
  ]

  /** Every colour of the palette is well formed, so every unit's fill has
      three byte channels and none is NaN. */
  lemma GlacialPaletteDecodes(i: nat)
    requires i < |GlacialPalette|
    ensures IsColorCode(GlacialPalette[i].1)
    ensures var s := Fill(GlacialPalette[i].1);
            s.r.Some? && s.g.Some? && s.b.Some?
            && 0 <= s.r.value < 256 && 0 <= s.g.value < 256 && 0 <= s.b.value < 256
  {
    var hex := GlacialPalette[i].1;
    assert IsColorCode(hex);
    FillOfColorCode(hex);
  }
}
