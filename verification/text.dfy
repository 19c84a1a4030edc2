/** Text formatting shared by the handlers: decimal rendering of integers (Go's `%d`),
    lower-case hexadecimal (Go's `hex.EncodeToString`), ASCII conversion to bytes,
    and the characters that are special inside a Go (RE2) regular expression. */
module Text {
  import opened Results

  newtype byte = b: int | 0 <= b < 256

  predicate IsDigit(c: char) {
    '0' <= c <= '9'
  }

  function DigitChar(d: nat): (c: char)
    requires d < 10
    ensures IsDigit(c)
  {
    ('0' as int + d) as char
  }

  function DigitValue(c: char): (d: nat)
    requires IsDigit(c)
    ensures d < 10 && DigitChar(d) == c
  {
    c as int - '0' as int
  }

  /** The decimal rendering of `n`, as `fmt.Sprintf("%d", n)` prints a non-negative integer:
      at least one digit, only digits, and no leading zero. */
  function Decimal(n: nat): (s: string)
    ensures |s| >= 1
    ensures forall i :: 0 <= i < |s| ==> IsDigit(s[i])
    ensures s[0] == '0' ==> n == 0 && s == "0"
    decreases n
  {
    if n < 10 then [DigitChar(n)] else Decimal(n / 10) + [DigitChar(n % 10)]
  }

  /** Reads a string of digits back as a number; the reference meaning of `Decimal`. */
  function ParseDecimal(s: string): (n: nat)
    requires forall i :: 0 <= i < |s| ==> IsDigit(s[i])
  {
    if s == [] then 0 else ParseDecimal(s[..|s| - 1]) * 10 + DigitValue(s[|s| - 1])
  }

  lemma {:induction false} DecimalRoundTrip(n: nat)
    ensures ParseDecimal(Decimal(n)) == n
    decreases n
  {
    if n >= 10 {
      var s := Decimal(n);
      assert s[..|s| - 1] == Decimal(n / 10);
      DecimalRoundTrip(n / 10);
    }
  }

  /** Distinct issue numbers render as distinct strings. */
  lemma DecimalInjective(m: nat, n: nat)
    requires Decimal(m) == Decimal(n)
    ensures m == n
  {
    DecimalRoundTrip(m);
    DecimalRoundTrip(n);
  }

  predicate IsLowerHex(c: char) {
    '0' <= c <= '9' || 'a' <= c <= 'f'
  }

  function HexNibble(n: nat): (c: char)
    requires n < 16
    ensures IsLowerHex(c)
  {
    if n < 10 then ('0' as int + n) as char else ('a' as int + n - 10) as char
  }

  function NibbleValue(c: char): (n: nat)
    requires IsLowerHex(c)
    ensures n < 16 && HexNibble(n) == c
  {
    if c <= '9' then c as int - '0' as int else c as int - 'a' as int + 10
  }

  /** Lower-case hexadecimal of a byte string, two characters per byte, high nibble first,
      as `hex.EncodeToString` produces. */
  function HexLower(d: seq<byte>): (s: string)
    ensures |s| == 2 * |d|
    ensures forall i :: 0 <= i < |s| ==> IsLowerHex(s[i])
  {
    if d == [] then [] else [HexNibble(d[0] as int / 16), HexNibble(d[0] as int % 16)] + HexLower(d[1..])
  }

  /** Byte `i` of a digest is rendered at positions `2i` and `2i+1`, high nibble first. */
  lemma {:induction false} HexLowerAt(d: seq<byte>, i: nat)
    requires i < |d|
    ensures HexLower(d)[2 * i] == HexNibble(d[i] as int / 16)
    ensures HexLower(d)[2 * i + 1] == HexNibble(d[i] as int % 16)
    decreases i
  {
    var s := HexLower(d);
    assert s == [HexNibble(d[0] as int / 16), HexNibble(d[0] as int % 16)] + HexLower(d[1..]);
    if i > 0 {
      HexLowerAt(d[1..], i - 1);
      assert s[2 * i] == HexLower(d[1..])[2 * (i - 1)];
      assert s[2 * i + 1] == HexLower(d[1..])[2 * (i - 1) + 1];
    }
  }

  /** Reads lower-case hexadecimal back into bytes; `None` on an odd length or a non-hex character. */
  function HexDecode(s: string): (r: Option<seq<byte>>)
    decreases |s|
  {
    if s == [] then Some([])
    else if |s| == 1 || !IsLowerHex(s[0]) || !IsLowerHex(s[1]) then None
    else match HexDecode(s[2..])
      case None => None
      case Some(rest) => Some([(NibbleValue(s[0]) * 16 + NibbleValue(s[1])) as byte] + rest)
  }

  lemma {:induction false} HexRoundTrip(d: seq<byte>)
    ensures HexDecode(HexLower(d)) == Some(d)
  {
    if d != [] {
      var s := HexLower(d);
      var hi := d[0] as int / 16;
      var lo := d[0] as int % 16;
      assert s == [HexNibble(hi), HexNibble(lo)] + HexLower(d[1..]);
      assert s[2..] == HexLower(d[1..]);
      HexRoundTrip(d[1..]);
      assert NibbleValue(s[0]) == hi && NibbleValue(s[1]) == lo;
      ByteFromNibbles(d[0]);
      assert HexDecode(s) == Some([(hi * 16 + lo) as byte] + d[1..]);
      assert [d[0]] + d[1..] == d;
    }
  }

  /** Whatever `HexDecode` accepts is the lower-case rendering of what it returns. */
  lemma {:induction false} HexDecodeSound(s: string, d: seq<byte>)
    requires HexDecode(s) == Some(d)
    ensures HexLower(d) == s
    decreases |s|
  {
    if s != [] {
      var rest :| HexDecode(s[2..]) == Some(rest) && d == [(NibbleValue(s[0]) * 16 + NibbleValue(s[1])) as byte] + rest;
      HexDecodeSound(s[2..], rest);
      var hi, lo := NibbleValue(s[0]), NibbleValue(s[1]);
      assert d[0] as int / 16 == hi && d[0] as int % 16 == lo;
      assert d[1..] == rest;
      assert s == [s[0], s[1]] + s[2..];
    }
  }

  lemma ByteFromNibbles(b: byte)
    ensures ((b as int / 16) * 16 + b as int % 16) as byte == b
  {
    var n := b as int;
    assert (b as int / 16) * 16 + b as int % 16 == n;
  }

  /** Distinct digests have distinct hexadecimal renderings. */
  lemma HexInjective(a: seq<byte>, b: seq<byte>)
    requires HexLower(a) == HexLower(b)
    ensures a == b
  {
    HexRoundTrip(a);
    HexRoundTrip(b);
  }

  predicate IsAscii(s: string) {
    forall i :: 0 <= i < |s| ==> s[i] as int < 128
  }

  /** The bytes of an ASCII string, as Go's `[]byte(s)` gives them. */
  function AsciiBytes(s: string): (b: seq<byte>)
    requires IsAscii(s)
    ensures |b| == |s|
    ensures forall i :: 0 <= i < |s| ==> b[i] as int == s[i] as int
  {
    seq(|s|, i requires 0 <= i < |s| => s[i] as int as byte)
  }

  /** Bytes read back as characters, one character per byte. */
  function ByteChars(b: seq<byte>): (s: string)
    ensures |s| == |b|
    ensures forall i :: 0 <= i < |b| ==> s[i] as int == b[i] as int
  {
    seq(|b|, i requires 0 <= i < |b| => b[i] as int as char)
  }

  /** The characters with a special meaning in Go's regular-expression syntax. */
  const RegexMetachars: string := "\\.+*?()|[]{}^$"

  /** A string that, interpolated into a pattern, matches only itself. */
  predicate RegexLiteral(s: string) {
    forall i :: 0 <= i < |s| ==> s[i] !in RegexMetachars
  }
}
