/**
 * src/conversion/rgb.js: RGB records with channels in 0..1, parsed from and
 * written to hexcodes. Parsing goes through `parseInt(s, 16)`, so a channel
 * fails when no hex digit follows its leading white space, its sign and its
 * `0x`/`0X` prefix (a bare `0x` fails although it starts with the digit `0`);
 * the two thrown errors
 * are values of `HexError`. Strings are sequences of characters, and
 * `length` counts characters.
 */
module SrcRgb {
  import opened Js
  import opened Shared
  import opened Records

  /** The two messages `fromHex` throws. */
  datatype HexError = ChannelIsNaN | UnexpectedLength

  datatype Result<T> = Ok(value: T) | Fail(error: HexError)

  /** The inner `f`: `parseInt(s, 16)`, failing when that is NaN. */
  function ParseChannel(s: string): (r: Result<int>)
    ensures r.Fail? <==> ParseHex(s).None?
    ensures r.Ok? ==> r.value == ParseHex(s).value
  {
    match ParseHex(s)
    case None => Fail(ChannelIsNaN)
    case Some(c) => Ok(c)
  }

  /** The three-digit `h`: one character `c` read as `(c + 16 c) / 255`. */
  function ShortChannel(c: char): Result<real>
  {
    match ParseChannel([c])
    case Fail(e) => Fail(e)
    case Ok(v) => Ok((v as real + v as real * 16.0) / 255.0)
  }

  /**
   * The six-digit `h(n)`, given the substring from `2n` to `2(n + 1)`: the pair
   * read as one number over 255.
   */
  function LongChannel(pair: string): Result<real>
  {
    match ParseChannel(pair)
    case Fail(e) => Fail(e)
    case Ok(v) => Ok(Over255(v))
  }

  /** A number on the 0..255 scale as a fraction of 255. */
  function Over255(v: int): real
  {
    v as real / 255.0
  }

  /** Three channel results combined, failing with the first failure. */
  function Combine(r: Result<real>, g: Result<real>, b: Result<real>): Result<Rgb>
  {
    if r.Fail? then Fail(r.error)
    else if g.Fail? then Fail(g.error)
    else if b.Fail? then Fail(b.error)
    else Ok(Rgb(r.value, g.value, b.value))
  }

  /**
   * The channels are read left to right: the colour is built exactly when all
   * three succeed, and otherwise the first failing channel's error is thrown.
   */
  lemma CombineOutcome(r: Result<real>, g: Result<real>, b: Result<real>)
    ensures Combine(r, g, b).Ok? <==> r.Ok? && g.Ok? && b.Ok?
    ensures Combine(r, g, b).Ok? ==> Combine(r, g, b).value == Rgb(r.value, g.value, b.value)
    ensures r.Fail? ==> Combine(r, g, b) == Fail(r.error)
    ensures r.Ok? && g.Fail? ==> Combine(r, g, b) == Fail(g.error)
    ensures r.Ok? && g.Ok? && b.Fail? ==> Combine(r, g, b) == Fail(b.error)
  {
  }

  /** One leading `#` removed. */
  function StripHash(hex: string): (s: string)
    ensures hex != [] && hex[0] == '#' ==> s == hex[1..]
    ensures (hex == [] || hex[0] != '#') ==> s == hex
  {
    if hex != [] && hex[0] == '#' then hex[1..] else hex
  }

  /** The `switch` on the length of the code once a `#` is stripped. */
  function ParseStripped(s: string): Result<Rgb>
  {
    if |s| == 3 then Combine(ShortChannel(s[0]), ShortChannel(s[1]), ShortChannel(s[2]))
    else if |s| == 6 then Combine(LongChannel(s[0..2]), LongChannel(s[2..4]), LongChannel(s[4..6]))
    else Fail(UnexpectedLength)
  }

  /** `fromHex(hex)`. */
  function FromHex(hex: string): Result<Rgb>
  {
    ParseStripped(StripHash(hex))
  }

  /** Only the lengths 3 and 6 are accepted once a `#` is stripped. */
  lemma LengthChecked(hex: string)
    ensures var n := |StripHash(hex)|; n != 3 && n != 6 ==> FromHex(hex) == Fail(UnexpectedLength)
    ensures FromHex("#12") == Fail(UnexpectedLength)
  {
  }

  /** A single `#` is dropped; a second one is read as a digit and fails. */
  lemma OneHashStripped(s: string)
    requires s == [] || s[0] != '#'
    ensures FromHex(['#'] + s) == FromHex(s)
    ensures FromHex("##ff") == Fail(ChannelIsNaN)
  {
    assert StripHash(['#'] + s) == s;
    assert StripHash(s) == s;
    var t := StripHash("##ff");
    assert t == "#ff" && t[0] == '#';
    NotADigit('#');
  }

  /** A single character that is neither a hex digit nor white space is NaN. */
  lemma NotADigit(c: char)
    requires !IsHexDigit(c) && !IsWhitespace(c)
    ensures ParseChannel([c]) == Fail(ChannelIsNaN)
    ensures ShortChannel(c) == Fail(ChannelIsNaN)
  {
    assert TrimStart([c]) == [c];
    var u := Unsigned([c]);
    assert u == [c] || u == [];
    assert WithoutRadixPrefix(u) == u;
    assert HexPrefix(u) == [];
  }

  /** A hex digit followed by a character that is not one reads as the digit alone. */
  lemma DigitThenOther(a: char, b: char)
    requires IsHexDigit(a) && !IsHexDigit(b) && !(a == '0' && (b == 'x' || b == 'X'))
    ensures ParseChannel([a, b]) == Ok(HexDigit(a))
  {
    DigitsAreBare([a]);
    assert TrimStart([a, b]) == [a, b];
    assert Unsigned([a, b]) == [a, b];
    assert WithoutRadixPrefix([a, b]) == [a, b];
    assert HexPrefix([a, b]) == [a] by {
      assert [a, b][1..] == [b];
      assert HexPrefix([b]) == [];
    }
    DigitValues(a, a);
  }

  /** A minus sign followed by a hex digit reads as the negated digit. */
  lemma SignedDigit(d: char)
    requires IsHexDigit(d)
    ensures ParseChannel(['-', d]) == Ok(-HexDigit(d))
  {
    var t := ['-', d];
    assert !IsWhitespace('-');
    assert TrimStart(t) == t;
    assert t[1..] == [d];
    assert Unsigned(t) == [d];
    DigitsAreBare([d]);
    HexPrefixOfDigits([d]);
    DigitValues(d, d);
    assert ParseHex(t) == Some(-HexDigit(d));
  }

  /** `HexPrefix` keeps the whole of a string made of hex digits. */
  lemma {:induction false} HexPrefixOfDigits(s: string)
    requires forall i :: 0 <= i < |s| ==> IsHexDigit(s[i])
    ensures HexPrefix(s) == s
  {
    if s != [] {
      HexPrefixOfDigits(s[1..]);
    }
  }

  /** `parseInt(s, 16)` of a non-empty string of hex digits is its value. */
  lemma ParseHexOfDigits(s: string)
    requires s != [] && forall i :: 0 <= i < |s| ==> IsHexDigit(s[i])
    ensures ParseHex(s) == Some(HexValue(s))
  {
    DigitsAreBare(s);
    HexPrefixOfDigits(s);
  }

  /** A string of hex digits has no white space, sign or radix prefix to skip. */
  lemma DigitsAreBare(s: string)
    requires s != [] && forall i :: 0 <= i < |s| ==> IsHexDigit(s[i])
    ensures TrimStart(s) == s && Unsigned(s) == s && WithoutRadixPrefix(s) == s
    ensures s[0] != '-'
  {
    assert !IsWhitespace(s[0]);
    if |s| >= 2 {
      assert IsHexDigit(s[1]);
    }
  }

  /** A value written with `n` hex digits is below `16^n`: one digit below 16, two below 256. */
  lemma DigitValues(a: char, b: char)
    requires IsHexDigit(a) && IsHexDigit(b)
    ensures HexValue([a]) == HexDigit(a) <= 15
    ensures HexValue([a, b]) == HexDigit(a) * 16 + HexDigit(b) <= 255
  {
    assert [a, b][..1] == [a];
    assert [a][..0] == [];
  }

  /** A pair of hex digits parses to its value. */
  lemma PairParses(a: char, b: char)
    requires IsHexDigit(a) && IsHexDigit(b)
    ensures ParseChannel([a, b]) == Ok(HexValue([a, b]))
  {
    ParseHexOfDigits([a, b]);
  }

  /** Each digit `d` of a three-digit code gives `d / 15`, a value in [0, 1]. */
  lemma ShortChannelOfDigit(c: char)
    requires IsHexDigit(c)
    ensures ShortChannel(c) == Ok(HexDigit(c) as real / 15.0)
    ensures 0.0 <= HexDigit(c) as real / 15.0 <= 1.0
  {
    ParseHexOfDigits([c]);
    DigitValues(c, c);
  }

  /** A pair of hex digits gives its value over 255, a value in [0, 1]. */
  lemma LongChannelOfDigits(a: char, b: char)
    requires IsHexDigit(a) && IsHexDigit(b)
    ensures var v := HexDigit(a) * 16 + HexDigit(b);
      LongChannel([a, b]) == Ok(Over255(v)) && 0 <= v <= 255
  {
    DigitValues(a, b);
    PairParses(a, b);
  }

  /** The three pairs of a six-character code. */
  lemma Pairs(s: string)
    requires |s| == 6
    ensures s[0..2] == [s[0], s[1]] && s[2..4] == [s[2], s[3]] && s[4..6] == [s[4], s[5]]
  {
  }

  /** A code made of hex digits parses, and every channel lies in [0, 1]. */
  lemma HexDigitsParse(hex: string)
    requires var s := StripHash(hex); (|s| == 3 || |s| == 6) && forall i :: 0 <= i < |s| ==> IsHexDigit(s[i])
    ensures FromHex(hex).Ok?
    ensures var c := FromHex(hex).value; 0.0 <= c.r <= 1.0 && 0.0 <= c.g <= 1.0 && 0.0 <= c.b <= 1.0
  {
    var s := StripHash(hex);
    if |s| == 3 {
      ShortChannelOfDigit(s[0]);
      ShortChannelOfDigit(s[1]);
      ShortChannelOfDigit(s[2]);
    } else {
      Pairs(s);
      LongChannelOfDigits(s[0], s[1]);
      LongChannelOfDigits(s[2], s[3]);
      LongChannelOfDigits(s[4], s[5]);
    }
  }

  /** A six-character code whose pairs read as `m`, `n` and `k` over 255 gives those channels. */
  lemma LongForm(s: string, m: int, n: int, k: int)
    requires |s| == 6
    requires LongChannel(s[0..2]) == Ok(Over255(m)) && LongChannel(s[2..4]) == Ok(Over255(n))
    requires LongChannel(s[4..6]) == Ok(Over255(k))
    ensures ParseStripped(s) == Ok(Rgb(Over255(m), Over255(n), Over255(k)))
  {
  }

  /** The value of a pair of hex digits. */
  function PairValue(a: char, b: char): (v: int)
    requires IsHexDigit(a) && IsHexDigit(b)
    ensures 0 <= v <= 255 && v == HexValue([a, b])
  {
    DigitValues(a, b);
    HexDigit(a) * 16 + HexDigit(b)
  }

  /** A six-digit code reads as the values of its three pairs over 255. */
  lemma LongCode(hex: string)
    requires var s := StripHash(hex); |s| == 6 && forall i :: 0 <= i < 6 ==> IsHexDigit(s[i])
    ensures var s := StripHash(hex);
      FromHex(hex) == Ok(Rgb(Over255(PairValue(s[0], s[1])), Over255(PairValue(s[2], s[3])),
        Over255(PairValue(s[4], s[5]))))
  {
    var s := StripHash(hex);
    Pairs(s);
    PairSliceReads(s[0..2], s[0], s[1]);
    PairSliceReads(s[2..4], s[2], s[3]);
    PairSliceReads(s[4..6], s[4], s[5]);
    LongForm(s, PairValue(s[0], s[1]), PairValue(s[2], s[3]), PairValue(s[4], s[5]));
  }

  /** A slice holding the hex digits `a` and `b` reads as their value over 255. */
  lemma PairSliceReads(t: string, a: char, b: char)
    requires t == [a, b] && IsHexDigit(a) && IsHexDigit(b)
    ensures LongChannel(t) == Ok(Over255(PairValue(a, b)))
  {
    LongChannelOfDigits(a, b);
  }

  /** Three digits: "#fff" is white. */
  lemma ShortExample()
    ensures FromHex("#fff") == Ok(Rgb(1.0, 1.0, 1.0))
  {
    var t := StripHash("#fff");
    assert t == "fff" && t[0] == 'f' && t[1] == 'f' && t[2] == 'f';
    ShortChannelOfDigit('f');
    assert ShortChannel('f') == Ok(1.0);
  }

  /** Six digits: "#000000" is black. */
  lemma LongExample()
    ensures FromHex("#000000") == Ok(Rgb(0.0, 0.0, 0.0))
  {
    var z := StripHash("#000000");
    assert z == "000000";
    LongCode("#000000");
    assert PairValue('0', '0') == 0;
  }

  /** Trailing non-digits are ignored: "zzz" fails, while the pair "1z" reads as 1. */
  lemma TrailingNonDigitsIgnored()
    ensures FromHex("zzz") == Fail(ChannelIsNaN)
    ensures FromHex("1z1z1z") == Ok(Rgb(1.0 / 255.0, 1.0 / 255.0, 1.0 / 255.0))
  {
    var t := StripHash("zzz");
    assert t == "zzz" && t[0] == 'z';
    NotADigit('z');
    var s := StripHash("1z1z1z");
    assert s == "1z1z1z" && s[0..2] == s[2..4] == s[4..6] == "1z";
    DigitThenOther('1', 'z');
    assert LongChannel("1z") == Ok(1.0 / 255.0);
    LongForm(s, 1, 1, 1);
  }

  /**
   * A pair "0x" is a radix prefix with no digits after it, so it is NaN
   * although it starts with the hex digit 0.
   */
  lemma BarePrefixIsNaN()
    ensures ParseHex("0x") == None && ParseHex("0X") == None
    ensures FromHex("0x0x0x") == Fail(ChannelIsNaN)
  {
    assert TrimStart("0x") == "0x" && TrimStart("0X") == "0X";
    assert WithoutRadixPrefix(Unsigned("0x")) == [];
    assert WithoutRadixPrefix(Unsigned("0X")) == [];
    var s := StripHash("0x0x0x");
    assert s == "0x0x0x" && s[0..2] == "0x";
    assert LongChannel(s[0..2]) == Fail(ChannelIsNaN);
  }

  /** `parseInt` accepts a sign, so a pair such as "-1" gives a negative channel. */
  lemma SignedPairsParse()
    ensures FromHex("-1-1-1") == Ok(Rgb(-1.0 / 255.0, -1.0 / 255.0, -1.0 / 255.0))
  {
    var s := StripHash("-1-1-1");
    assert s == "-1-1-1" && s[0..2] == s[2..4] == s[4..6] == "-1";
    SignedDigit('1');
    assert LongChannel("-1") == Ok(-1.0 / 255.0);
    LongForm(s, -1, -1, -1);
  }

  /** The inner `f` of `toHex`: the channel scaled to 0..255 and clamped. */
  function Scaled(c: real): (v: real)
    ensures 0.0 <= v <= 255.0
  {
    Clamp(c * 255.0, 0.0, 255.0)
  }

  /** A scaled channel's high and low part: `trunc(v / 16)` and `trunc(v % 16)`, each in 0..15. */
  lemma Nibbles(v: real)
    requires 0.0 <= v <= 255.0
    ensures 0 <= Trunc(v / 16.0) <= 15 && 0 <= Trunc(Rem(v, 16.0)) <= 15
    ensures Trunc(v / 16.0) * 16 + Trunc(Rem(v, 16.0)) == v.Floor
  {
    var q := Trunc(v / 16.0);
    assert v / 16.0 <= 255.0 / 16.0;
    assert Rem(v, 16.0) == v - 16.0 * q as real;
    assert Trunc(v - 16.0 * q as real) == v.Floor - 16 * q;
  }

  /** The two characters for one channel, as written: code points 97 + part, letters `a` to `p`. */
  function PairAsWritten(c: real): (p: string)
    ensures |p| == 2 && 'a' <= p[0] <= 'p' && 'a' <= p[1] <= 'p'
    ensures (p[0] as int - 'a' as int) * 16 + (p[1] as int - 'a' as int) == Scaled(c).Floor
  {
    var v := Scaled(c);
    Nibbles(v);
    [FromCharCode(v / 16.0 + 97.0), FromCharCode(Rem(v, 16.0) + 97.0)]
  }

  /** `toHex(rgb)` as written: six letters between `a` and `p`. */
  function ToHexAsWritten(c: Rgb): (s: string)
    ensures |s| == 6 && forall i :: 0 <= i < 6 ==> 'a' <= s[i] <= 'p'
  {
    PairAsWritten(c.r) + PairAsWritten(c.g) + PairAsWritten(c.b)
  }

  /** As written, a channel at or below 0 is the pair "aa", not "00". */
  lemma LowChannelWrittenAsLetters(c: real)
    requires c <= 0.0
    ensures PairAsWritten(c) == "aa"
  {
    var v := Scaled(c);
    assert v == 0.0;
    var p := PairAsWritten(c);
    assert p[0] as int == Trunc(v / 16.0 + 97.0) == 97;
    assert p[1] as int == Trunc(Rem(v, 16.0) + 97.0) == 97;
  }

  /** As written, black (and every colour with no positive channel) is "aaaaaa". */
  lemma BlackWrittenAsLetters(c: Rgb)
    requires c.r <= 0.0 && c.g <= 0.0 && c.b <= 0.0
    ensures ToHexAsWritten(c) == "aaaaaa"
  {
    LowChannelWrittenAsLetters(c.r);
    LowChannelWrittenAsLetters(c.g);
    LowChannelWrittenAsLetters(c.b);
  }

  /** "aaaaaa" reads back as 170/255 in every channel, so black does not survive the round trip. */
  lemma LettersReadBack()
    ensures FromHex("aaaaaa") == Ok(Rgb(170.0 / 255.0, 170.0 / 255.0, 170.0 / 255.0))
  {
    var s := StripHash("aaaaaa");
    assert s == "aaaaaa";
    LongCode("aaaaaa");
    assert PairValue('a', 'a') == 170;
  }

  /** The lowercase hex digit for a value in 0..15. */
  function DigitChar(d: int): (c: char)
    requires 0 <= d < 16
    ensures IsHexDigit(c) && HexDigit(c) == d
  {
    if d < 10 then ('0' as int + d) as char else ('a' as int + d - 10) as char
  }

  /** The pair for one channel as evidently intended: the two hex digits of `floor(v)`. */
  function PairIntended(c: real): (p: string)
    ensures DigitPair(p, Scaled(c).Floor)
  {
    var v := Scaled(c);
    Nibbles(v);
    [DigitChar(Trunc(v / 16.0)), DigitChar(Trunc(Rem(v, 16.0)))]
  }

  /** `toHex` as evidently intended: six lowercase hex digits. */
  function ToHex(c: Rgb): (s: string)
    ensures |s| == 6 && forall i :: 0 <= i < 6 ==> IsHexDigit(s[i])
  {
    PairIntended(c.r) + PairIntended(c.g) + PairIntended(c.b)
  }

  /** Reading back the intended hexcode gives each channel truncated to a multiple of 1/255. */
  lemma IntendedRoundTrip(c: Rgb)
    ensures FromHex(ToHex(c)) ==
      Ok(Rgb(Over255(Scaled(c.r).Floor), Over255(Scaled(c.g).Floor), Over255(Scaled(c.b).Floor)))
  {
    IntendedPairsRead(c);
    assert ToHex(c) == PairIntended(c.r) + PairIntended(c.g) + PairIntended(c.b);
  }

  /** The three intended pairs, joined, read as the truncated scaled channels. */
  lemma IntendedPairsRead(c: Rgb)
    ensures FromHex(PairIntended(c.r) + PairIntended(c.g) + PairIntended(c.b)) ==
      Ok(Rgb(Over255(Scaled(c.r).Floor), Over255(Scaled(c.g).Floor), Over255(Scaled(c.b).Floor)))
  {
    DigitPairsRead(PairIntended(c.r), PairIntended(c.g), PairIntended(c.b), Scaled(c.r).Floor, Scaled(c.g).Floor,
      Scaled(c.b).Floor);
  }

  /** Three pairs of hex digits, joined, read as their values over 255. */
  lemma DigitPairsRead(p: string, q: string, r: string, m: int, n: int, k: int)
    requires DigitPair(p, m) && DigitPair(q, n) && DigitPair(r, k)
    ensures FromHex(p + q + r) == Ok(Rgb(Over255(m), Over255(n), Over255(k)))
  {
    DigitPairReads(p, m);
    DigitPairReads(q, n);
    DigitPairReads(r, k);
    ReadPairs(p, q, r, m, n, k);
  }

  /** Two hex digits whose value is `n`. */
  predicate DigitPair(p: string, n: int)
  {
    |p| == 2 && IsHexDigit(p[0]) && IsHexDigit(p[1]) && HexDigit(p[0]) * 16 + HexDigit(p[1]) == n
  }

  /** A pair of hex digits with value `n` reads as `n / 255`. */
  lemma DigitPairReads(p: string, n: int)
    requires DigitPair(p, n)
    ensures LongChannel(p) == Ok(Over255(n))
  {
    assert p == [p[0], p[1]];
    LongChannelOfDigits(p[0], p[1]);
  }

  /** Three pairs that each read as a channel, joined without a `#`, read as the colour. */
  lemma ReadPairs(p: string, q: string, r: string, m: int, n: int, k: int)
    requires |p| == 2 && |q| == 2 && |r| == 2 && p[0] != '#'
    requires LongChannel(p) == Ok(Over255(m)) && LongChannel(q) == Ok(Over255(n))
    requires LongChannel(r) == Ok(Over255(k))
    ensures FromHex(p + q + r) == Ok(Rgb(Over255(m), Over255(n), Over255(k)))
  {
    var s := p + q + r;
    ThreePairs(p, q, r);
    LongForm(s, m, n, k);
    NoHashToStrip(s);
  }

  /** Three pairs joined are six characters, and slicing at 2 and 4 gives the pairs back. */
  lemma ThreePairs(p: string, q: string, r: string)
    requires |p| == 2 && |q| == 2 && |r| == 2
    ensures var s := p + q + r; |s| == 6 && s[0..2] == p && s[2..4] == q && s[4..6] == r
  {
    var s := p + q + r;
    assert s[0..2] == p;
    assert s[2..4] == q;
    assert s[4..6] == r;
  }

  /** A code that does not start with `#` is read as it is. */
  lemma NoHashToStrip(s: string)
    requires s != [] && s[0] != '#'
    ensures FromHex(s) == ParseStripped(s)
  {
  }

  /** The intended pair for a channel parses to the truncated scaled channel. */
  lemma PairReadsBack(c: real)
    ensures ParseChannel(PairIntended(c)) == Ok(Scaled(c).Floor)
    ensures LongChannel(PairIntended(c)) == Ok(Over255(Scaled(c).Floor))
  {
    var p := PairIntended(c);
    DigitPairReads(p, Scaled(c).Floor);
  }

  /** A channel that is already a multiple of 1/255 in [0, 1] comes back unchanged. */
  lemma IntendedExactRoundTrip(c: Rgb, r: int, g: int, b: int)
    requires 0 <= r <= 255 && 0 <= g <= 255 && 0 <= b <= 255
    requires c == Rgb(Over255(r), Over255(g), Over255(b))
    ensures FromHex(ToHex(c)) == Ok(c)
  {
    IntendedRoundTrip(c);
    ExactChannel(r);
    ExactChannel(g);
    ExactChannel(b);
  }

  /** A channel `n / 255` with `n` in 0..255 scales back to exactly `n`. */
  lemma ExactChannel(n: int)
    requires 0 <= n <= 255
    ensures Over255(Scaled(Over255(n)).Floor) == Over255(n)
  {
    assert Scaled(Over255(n)) == n as real;
  }
}
