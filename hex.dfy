/**
 * `hexify`: an integer RGB triple written as `#rrggbb`, two zero-padded
 * lowercase hexadecimal digits per channel, which is the hex colour notation
 * of section 5.2 of CSS Color Module Level 4. `ParseHex` reads back what
 * `hexify` writes (lowercase, six digits) and is the partner that the
 * round-trip lemmas pair it with.
 */
module Hex {
  import opened ColorSpace

  datatype Option<T> = None | Some(value: T)

  /** The characters that Python's `%x` writes. */
  predicate IsHexDigit(c: char)
  {
    '0' <= c <= '9' || 'a' <= c <= 'f'
  }

  /** The lowercase hexadecimal digit for 0..15. */
  function HexDigit(d: int): (c: char)
    requires 0 <= d < 16
    ensures IsHexDigit(c)
    ensures d < 10 <==> '0' <= c <= '9'
  {
    if d < 10 then ('0' as int + d) as char else ('a' as int + d - 10) as char
  }

  /** The value of a lowercase hexadecimal digit; anything else has none. */
  function DigitValue(c: char): (d: Option<int>)
    ensures d.Some? <==> IsHexDigit(c)
    ensures d.Some? ==> 0 <= d.value < 16 && HexDigit(d.value) == c
  {
    if '0' <= c <= '9' then Some(c as int - '0' as int)
    else if 'a' <= c <= 'f' then Some(c as int - 'a' as int + 10)
    else None
  }

  /** Reading back a written digit gives the digit's value. */
  lemma DigitRoundTrip(d: int)
    requires 0 <= d < 16
    ensures DigitValue(HexDigit(d)) == Some(d)
  {
  }

  /** `'%02x' % p` for p in 0..255: the high nibble, then the low one. */
  function HexByte(n: int): (s: string)
    requires 0 <= n < 256
    ensures |s| == 2 && IsHexDigit(s[0]) && IsHexDigit(s[1])
  {
    [HexDigit(n / 16), HexDigit(n % 16)]
  }

  /** Two hexadecimal digits read as one channel. */
  function ParseByte(s: string): (n: Option<int>)
    requires |s| == 2
    ensures n.Some? <==> IsHexDigit(s[0]) && IsHexDigit(s[1])
    ensures n.Some? ==> 0 <= n.value < 256
  {
    match (DigitValue(s[0]), DigitValue(s[1]))
    case (Some(hi), Some(lo)) => Some(hi * 16 + lo)
    case _ => None
  }

  /** Writing a channel and reading it back gives the channel. */
  lemma ByteRoundTrip(n: int)
    requires 0 <= n < 256
    ensures ParseByte(HexByte(n)) == Some(n)
  {
    var s := HexByte(n);
    DigitRoundTrip(n / 16);
    DigitRoundTrip(n % 16);
    assert DigitValue(s[0]) == Some(n / 16) && DigitValue(s[1]) == Some(n % 16);
  }

  /** A channel that was read back is written out as the same two characters. */
  lemma ByteParsed(s: string, n: int)
    requires |s| == 2 && ParseByte(s) == Some(n)
    ensures 0 <= n < 256 && HexByte(n) == s
  {
    var hi := DigitValue(s[0]).value;
    var lo := DigitValue(s[1]).value;
    assert n == hi * 16 + lo;
    assert n / 16 == hi && n % 16 == lo;
  }

  /** `hexify(rgb)`, for channels that Python writes as exactly two digits. */
  function Hexify(p: Pixel): (s: string)
    requires InGamut(p)
    ensures |s| == 7 && s[0] == '#'
    ensures forall i :: 1 <= i < 7 ==> IsHexDigit(s[i])
    ensures s[1..3] == HexByte(p.r) && s[3..5] == HexByte(p.g) && s[5..7] == HexByte(p.b)
  {
    "#" + HexByte(p.r) + HexByte(p.g) + HexByte(p.b)
  }

  /** Reads `#rrggbb` back into a triple; anything else has no reading. */
  function ParseHex(s: string): (p: Option<Pixel>)
    ensures p.Some? ==> InGamut(p.value)
    ensures p.Some? ==> |s| == 7 && s[0] == '#'
  {
    if |s| != 7 || s[0] != '#' then None
    else
      match (ParseByte(s[1..3]), ParseByte(s[3..5]), ParseByte(s[5..7]))
      case (Some(r), Some(g), Some(b)) => Some(Pixel(r, g, b))
      case _ => None
  }

  /** Decoding the written string recovers the triple. */
  lemma HexRoundTrip(p: Pixel)
    requires InGamut(p)
    ensures ParseHex(Hexify(p)) == Some(p)
  {
    var s := Hexify(p);
    ByteRoundTrip(p.r);
    ByteRoundTrip(p.g);
    ByteRoundTrip(p.b);
  }

  /** Every string that decodes is exactly what `hexify` writes for the decoded triple. */
  lemma ParseHexCanonical(s: string, p: Pixel)
    requires ParseHex(s) == Some(p)
    ensures InGamut(p) && Hexify(p) == s
  {
    ByteParsed(s[1..3], p.r);
    ByteParsed(s[3..5], p.g);
    ByteParsed(s[5..7], p.b);
    assert s == s[..1] + s[1..3] + s[3..5] + s[5..7];
  }

  /** Distinct triples are written as distinct strings. */
  lemma HexifyInjective(p: Pixel, q: Pixel)
    requires InGamut(p) && InGamut(q)
    requires Hexify(p) == Hexify(q)
    ensures p == q
  {
    HexRoundTrip(p);
    HexRoundTrip(q);
  }
}
