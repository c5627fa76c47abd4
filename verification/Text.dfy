/** Searching and splitting text, and the byte, hexadecimal and decimal forms
    the program writes into hash inputs, records and headers. */
module Text {
  import opened Wrappers

  /** The position of the first `ch` at or after `from`. */
  function Find(s: seq<char>, ch: char, from: nat): (r: Option<nat>)
    ensures r.Some? ==> from <= r.value < |s| && s[r.value] == ch
    decreases |s| - from
  {
    if from >= |s| then None
    else if s[from] == ch then Some(from)
    else Find(s, ch, from + 1)
  }

  lemma {:induction false} FindIsFirst(s: seq<char>, ch: char, from: nat, k: nat)
    requires var r := Find(s, ch, from); from <= k < if r.Some? then r.value else |s|
    ensures s[k] != ch
    decreases |s| - from
  {
    if from < k {
      FindIsFirst(s, ch, from + 1, k);
    }
  }

  lemma {:induction false} FindInSuffix(s: seq<char>, ch: char, start: nat, from: nat)
    requires start <= |s|
    ensures var inner := Find(s[start..], ch, from);
            Find(s, ch, start + from) == if inner.Some? then Some(start + inner.value) else None
    decreases |s| - start - from
  {
    if start + from < |s| && s[start + from] != ch {
      FindInSuffix(s, ch, start, from + 1);
    }
  }

  function LowerCase(c: char): char {
    if 'A' <= c <= 'Z' then (c as int - 'A' as int + 'a' as int) as char else c
  }

  const CAPITALS: string := "ABCDEFGHIJKLMNOPQRSTUVWXYZ"
  const SMALL_LETTERS: string := "abcdefghijklmnopqrstuvwxyz"

  /** Capital letters have their small ones, and nothing else changes. */
  lemma LowerCaseExact(c: char)
    ensures forall k :: 0 <= k < 26 ==> LowerCase(CAPITALS[k]) == SMALL_LETTERS[k]
    ensures c !in CAPITALS ==> LowerCase(c) == c
  {
    if 'A' <= c <= 'Z' {
      assert CAPITALS[c as int - 'A' as int] == c;
    }
  }

  // ----- bytes

  type Byte = b: int | 0 <= b < 256

  /** A SHA-256 value, and the blob digests and identities made of one. */
  type Digest = d: seq<Byte> | |d| == 32 witness seq(32, _ => 0)

  function Pow256(width: nat): nat {
    if width == 0 then 1 else 256 * Pow256(width - 1)
  }

  function BigEndian(n: nat, width: nat): (bytes: seq<Byte>)
    ensures |bytes| == width
  {
    if width == 0 then [] else BigEndian(n / 256, width - 1) + [n % 256]
  }

  lemma {:induction false} BigEndianInjective(m: nat, n: nat, width: nat)
    requires m < Pow256(width) && n < Pow256(width)
    requires BigEndian(m, width) == BigEndian(n, width)
    ensures m == n
  {
    if width > 0 {
      var a, b := BigEndian(m / 256, width - 1), BigEndian(n / 256, width - 1);
      assert a == (a + [m % 256])[..width - 1] && b == (b + [n % 256])[..width - 1];
      assert (a + [m % 256])[width - 1] == (b + [n % 256])[width - 1];
      BigEndianInjective(m / 256, n / 256, width - 1);
    }
  }

  /** The number a string of bytes stands for, the first byte weighing most. */
  function FromBigEndian(bytes: seq<Byte>): nat {
    if bytes == [] then 0 else bytes[0] * Pow256(|bytes| - 1) + FromBigEndian(bytes[1..])
  }

  lemma {:induction false} FromBigEndianSnoc(bytes: seq<Byte>, last: Byte)
    ensures FromBigEndian(bytes + [last]) == 256 * FromBigEndian(bytes) + last
  {
    if bytes == [] {
      assert [last][1..] == [] && Pow256(0) == 1;
    } else {
      assert (bytes + [last])[1..] == bytes[1..] + [last];
      FromBigEndianSnoc(bytes[1..], last);
      var weight := Pow256(|bytes| - 1);
      assert Pow256(|bytes|) == 256 * weight;
      assert bytes[0] * (256 * weight) == 256 * (bytes[0] * weight);
    }
  }

  lemma {:induction false} BigEndianValue(n: nat, width: nat)
    requires n < Pow256(width)
    ensures FromBigEndian(BigEndian(n, width)) == n
  {
    if width > 0 {
      BigEndianValue(n / 256, width - 1);
      FromBigEndianSnoc(BigEndian(n / 256, width - 1), n % 256);
    }
  }

  // ----- UTF-8

  function Utf8Char(c: char): (bytes: seq<Byte>)
    ensures 1 <= |bytes| <= 4
  {
    var n := c as int;
    if n < 0x80 then [n]
    else if n < 0x800 then [0xC0 + n / 64, 0x80 + n % 64]
    else if n < 0x1_0000 then [0xE0 + n / 4096, 0x80 + n / 64 % 64, 0x80 + n % 64]
    else [0xF0 + n / 262144, 0x80 + n / 4096 % 64, 0x80 + n / 64 % 64, 0x80 + n % 64]
  }

  function Utf8(s: string): seq<Byte> {
    if s == [] then [] else Utf8Char(s[0]) + Utf8(s[1..])
  }

  /** No encoding of a character is a prefix of another's. */
  lemma Utf8PrefixFree(c: char, d: char, x: seq<Byte>, y: seq<Byte>)
    requires Utf8Char(c) + x == Utf8Char(d) + y
    ensures c == d && x == y
  {
    var a, b := Utf8Char(c), Utf8Char(d);
    assert (a + x)[0] == (b + y)[0];
    assert |a| == |b|;
    assert forall k :: 0 <= k < |a| ==> a[k] == (a + x)[k] && b[k] == (b + y)[k];
    assert a == b;
    Utf8Decodes(c);
    Utf8Decodes(d);
    assert x == (a + x)[|a|..] && y == (b + y)[|b|..];
  }

  function Utf8Value(bytes: seq<int>): int
    requires 1 <= |bytes| <= 4
  {
    match |bytes|
    case 1 => bytes[0]
    case 2 => (bytes[0] - 0xC0) * 64 + (bytes[1] - 0x80)
    case 3 => ((bytes[0] - 0xE0) * 64 + (bytes[1] - 0x80)) * 64 + (bytes[2] - 0x80)
    case _ => (((bytes[0] - 0xF0) * 64 + (bytes[1] - 0x80)) * 64 + (bytes[2] - 0x80)) * 64 + (bytes[3] - 0x80)
  }

  lemma SixBits(n: nat)
    ensures n == n / 64 * 64 + n % 64
    ensures n / 4096 == n / 64 / 64 && n / 262144 == n / 64 / 64 / 64
  {
  }

  lemma Utf8Decodes(c: char)
    ensures Utf8Value(Utf8Char(c)) == c as int
  {
    var n := c as int;
    SixBits(n);
    SixBits(n / 64);
    SixBits(n / 4096);
  }

  lemma {:induction false} Utf8Injective(s: string, t: string)
    requires Utf8(s) == Utf8(t)
    ensures s == t
  {
    if s != [] && t != [] {
      Utf8PrefixFree(s[0], t[0], Utf8(s[1..]), Utf8(t[1..]));
      Utf8Injective(s[1..], t[1..]);
      assert s == [s[0]] + s[1..] && t == [t[0]] + t[1..];
    }
  }

  lemma {:induction false} Utf8Concat(s: string, t: string)
    ensures Utf8(s + t) == Utf8(s) + Utf8(t)
  {
    if s == [] {
      assert s + t == t;
    } else {
      assert (s + t)[1..] == s[1..] + t;
      Utf8Concat(s[1..], t);
    }
  }

  /** ASCII text is its own encoding. */
  lemma {:induction false} Utf8Ascii(s: string)
    requires forall k :: 0 <= k < |s| ==> s[k] as int < 0x80
    ensures |Utf8(s)| == |s| && forall k :: 0 <= k < |s| ==> Utf8(s)[k] == s[k] as int
  {
    if s != [] {
      Utf8Ascii(s[1..]);
    }
  }

  // ----- hexadecimal

  function HexDigit(n: nat): char
    requires n < 16
  {
    "0123456789abcdef"[n]
  }

  /** Two lower-case digits a byte. */
  function Hex(bytes: seq<Byte>): (text: string)
    ensures |text| == 2 * |bytes|
  {
    if bytes == [] then [] else [HexDigit(bytes[0] / 16), HexDigit(bytes[0] % 16)] + Hex(bytes[1..])
  }

  function LowerHexNibble(c: char): (r: Option<int>)
    ensures r.Some? ==> 0 <= r.value < 16
  {
    if '0' <= c <= '9' then Some(c as int - '0' as int)
    else if 'a' <= c <= 'f' then Some(c as int - 'a' as int + 10)
    else None
  }

  lemma NibbleInverse(c: char, n: nat)
    requires n < 16
    ensures LowerHexNibble(c) == Some(n) <==> c == HexDigit(n)
  {
  }

  lemma {:induction false} HexAt(bytes: seq<Byte>, k: nat)
    requires k < |bytes|
    ensures Hex(bytes)[2 * k] == HexDigit(bytes[k] / 16) && Hex(bytes)[2 * k + 1] == HexDigit(bytes[k] % 16)
  {
    if k > 0 {
      HexAt(bytes[1..], k - 1);
    }
  }

  predicate IsLowerHex(text: string, length: nat) {
    |text| == length && forall k :: 0 <= k < |text| ==> LowerHexNibble(text[k]).Some?
  }

  lemma HexIsLower(bytes: seq<Byte>)
    ensures IsLowerHex(Hex(bytes), 2 * |bytes|)
  {
    forall k | 0 <= k < |Hex(bytes)| ensures LowerHexNibble(Hex(bytes)[k]).Some? {
      HexAt(bytes, k / 2);
      NibbleInverse(HexDigit(bytes[k / 2] / 16), bytes[k / 2] / 16);
      NibbleInverse(HexDigit(bytes[k / 2] % 16), bytes[k / 2] % 16);
    }
  }

  lemma LowerHexExact(text: string, length: nat)
    ensures IsLowerHex(text, length) <==>
            |text| == length && forall k :: 0 <= k < |text| ==> text[k] in "0123456789abcdef"
  {
    forall k | 0 <= k < |text| ensures LowerHexNibble(text[k]).Some? <==> text[k] in "0123456789abcdef" {
      OneOfDigits(text[k]);
    }
  }

  lemma OneOfDigits(c: char)
    ensures LowerHexNibble(c).Some? <==> c in "0123456789abcdef"
  {
    var digits := "0123456789abcdef";
    if LowerHexNibble(c).Some? {
      assert digits[LowerHexNibble(c).value] == c;
    }
  }

  // ----- decimal

  predicate IsDigit(c: char) {
    '0' <= c <= '9'
  }

  predicate AllDigits(text: string) {
    forall k :: 0 <= k < |text| ==> IsDigit(text[k])
  }

  function DecimalValue(text: string): nat
    requires AllDigits(text)
  {
    if text == [] then 0
    else DecimalValue(text[..|text| - 1]) * 10 + (text[|text| - 1] as int - '0' as int)
  }

  function Show(n: nat): (text: string)
    ensures text != []
  {
    var digit := [('0' as int + n % 10) as char];
    if n < 10 then digit else Show(n / 10) + digit
  }

  lemma {:induction false} ShowThenRead(n: nat)
    ensures AllDigits(Show(n)) && DecimalValue(Show(n)) == n
  {
    var text := Show(n);
    if n >= 10 {
      ShowThenRead(n / 10);
      assert text[..|text| - 1] == Show(n / 10);
    } else {
      assert text[..0] == [];
    }
  }

  // ----- decimal numbers as bytes

  function BytesValue(bytes: seq<Byte>): int {
    if bytes == [] then 0 else BytesValue(bytes[..|bytes| - 1]) * 10 + bytes[|bytes| - 1] as int - 48
  }

  predicate AllDigitBytes(bytes: seq<Byte>) {
    forall k :: 0 <= k < |bytes| ==> 48 <= bytes[k] <= 57
  }

  /** Decimal digits without a leading zero that read back to `n`. */
  predicate IsDecimalBytes(bytes: seq<Byte>, n: nat) {
    && bytes != [] && AllDigitBytes(bytes) && (|bytes| > 1 ==> bytes[0] != 48)
    && BytesValue(bytes) == n
  }

  lemma Utf8Digit(d: nat)
    requires d < 10
    ensures Utf8([('0' as int + d) as char]) == [48 + d]
  {
    assert Utf8([('0' as int + d) as char]) == Utf8Char(('0' as int + d) as char) + [];
  }

  lemma ShowUnfolds(n: nat)
    ensures Utf8(Show(n)) == (if n < 10 then [] else Utf8(Show(n / 10))) + [48 + n % 10]
  {
    Utf8Digit(n % 10);
    if n >= 10 {
      Utf8Concat(Show(n / 10), [('0' as int + n % 10) as char]);
    }
  }

  lemma {:induction false} PositiveValue(bytes: seq<Byte>)
    requires bytes != [] && AllDigitBytes(bytes) && bytes[0] != 48
    ensures BytesValue(bytes) > 0
  {
    if |bytes| > 1 {
      PositiveValue(bytes[..|bytes| - 1]);
    }
  }

  lemma {:induction false} ShowIsDecimal(n: nat)
    ensures IsDecimalBytes(Utf8(Show(n)), n) && (n > 0 ==> Utf8(Show(n))[0] != 48)
  {
    ShowUnfolds(n);
    var bytes := Utf8(Show(n));
    if n >= 10 {
      ShowIsDecimal(n / 10);
      assert bytes[..|bytes| - 1] == Utf8(Show(n / 10));
    } else {
      assert bytes == [48 + n];
    }
  }

  /** A number is shown in the one way there is. */
  lemma {:induction false} DecimalUnique(bytes: seq<Byte>, n: nat)
    requires IsDecimalBytes(bytes, n)
    ensures bytes == Utf8(Show(n))
  {
    ShowUnfolds(n);
    var last := bytes[|bytes| - 1];
    var rest := bytes[..|bytes| - 1];
    assert bytes == rest + [last];
    if |bytes| == 1 {
      assert rest == [] && n == last - 48;
    } else {
      PositiveValue(rest);
      assert n == BytesValue(rest) * 10 + (last - 48);
      DecimalUnique(rest, n / 10);
    }
  }
}
